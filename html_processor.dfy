/** The two HTML rewriting passes of the page viewer
    (src/lib/utils/html-processor.ts): `removeScripts`, which strips the
    scripts, inline handlers and `noscript` blocks of a downloaded page, and
    `embedSelectionScript`, which puts the viewer's own navigation and
    selection scripts and styles back in. Every regular expression is a
    `Matcher`; `/i` folds ASCII letters only, and `\s` is JavaScript
    whitespace. */
module HtmlProcessor {
  import opened Wrappers
  import opened Strings
  import opened Patterns

  // ---------------------------------------------------------------------
  // Character scans

  /** Position of the first `c` in `s`. */
  function FirstIndex(s: string, c: char): (r: Option<nat>)
    ensures r.Some? ==> r.value < |s| && s[r.value] == c && forall k :: 0 <= k < r.value ==> s[k] != c
    ensures r.None? ==> forall k :: 0 <= k < |s| ==> s[k] != c
  {
    if s == [] then None
    else if s[0] == c then Some(0)
    else match FirstIndex(s[1..], c)
      case None => None
      case Some(k) => Some(k + 1)
  }

  predicate IsQuote(c: char) {
    c == '"' || c == '\''
  }

  /** Position of the first quote character (either kind) in `s`. */
  function FirstQuote(s: string): (r: Option<nat>)
    ensures r.Some? ==> r.value < |s| && IsQuote(s[r.value]) && forall k :: 0 <= k < r.value ==> !IsQuote(s[k])
    ensures r.None? ==> forall k :: 0 <= k < |s| ==> !IsQuote(s[k])
  {
    if s == [] then None
    else if IsQuote(s[0]) then Some(0)
    else match FirstQuote(s[1..])
      case None => None
      case Some(k) => Some(k + 1)
  }

  /** Length of the run of JavaScript whitespace that starts `s` (`\s*`). */
  function SpaceRun(s: string): (r: nat)
    ensures r <= |s|
    ensures forall k :: 0 <= k < r ==> IsJsSpace(s[k])
    ensures r == |s| || !IsJsSpace(s[r])
  {
    if s != [] && IsJsSpace(s[0]) then 1 + SpaceRun(s[1..]) else 0
  }

  // ---------------------------------------------------------------------
  // The patterns

  /** `prefix[^>]*>` with `/i`: the prefix, then everything up to and
      including the first `>`. */
  function TagLen(prefix: string, s: string): (r: nat)
    requires |prefix| > 0
    ensures r <= |s|
    ensures r > 0 ==> StartsWith(s, prefix, true) && |prefix| < r && s[r - 1] == '>'
    ensures r > 0 ==> forall k :: |prefix| <= k < r - 1 ==> s[k] != '>'
  {
    if StartsWith(s, prefix, true) then
      match FirstIndex(s[|prefix|..], '>')
      case None =>
        assert forall k :: |prefix| <= k < |s| ==> s[k] == s[|prefix|..][k - |prefix|];
        0
      case Some(g) =>
        assert s[|prefix|..][g] == s[|prefix| + g];
        |prefix| + g + 1
    else 0
  }

  /** No tag match: the prefix is absent, or no `>` follows it. */
  lemma TagLenZero(prefix: string, s: string)
    requires |prefix| > 0 && TagLen(prefix, s) == 0
    ensures StartsWith(s, prefix, true) ==> forall k :: |prefix| <= k < |s| ==> s[k] != '>'
  {
    if StartsWith(s, prefix, true) {
      assert FirstIndex(s[|prefix|..], '>').None?;
      forall k | |prefix| <= k < |s| ensures s[k] != '>' {
        assert s[|prefix|..][k - |prefix|] == s[k];
      }
    }
  }

  function TagM(prefix: string): Matcher
    requires |prefix| > 0
  {
    s => TagLen(prefix, s)
  }

  /** `<tag[^>]*>[\s\S]*?<\/tag>` with `/i`: an opening tag, then everything
      up to and including the first closing tag after it. */
  function BlockLen(tag: string, s: string): (r: nat)
    requires |tag| > 0
    ensures r <= |s|
    ensures r > 0 ==> s[r - 1] == '>' && 0 < TagLen("<" + tag, s) < r
  {
    var open := TagLen("<" + tag, s);
    if open == 0 then 0
    else
      var close := "</" + tag + ">";
      match FindFirst(s[open..], Lit(close, true))
      case None => 0
      case Some(j) =>
        assert StartsWith(s[open..][j..], close, true);
        assert s[open..][j..][|close| - 1] == s[open + j + |close| - 1];
        assert Lower(s[open + j + |close| - 1]) == '>';
        open + j + |close|
  }

  /** The block match ends with the first case-insensitive `</tag>` after
      the opening tag; with an opening tag and no block, no closing tag
      follows it. */
  lemma BlockLenNearestClose(tag: string, s: string)
    requires |tag| > 0
    ensures var open, close, r := TagLen("<" + tag, s), "</" + tag + ">", BlockLen(tag, s);
      && (r > 0 ==> open + |close| <= r && StartsWith(s[r - |close|..], close, true)
                    && forall k :: open <= k < r - |close| ==> !StartsWith(s[k..], close, true))
      && (r == 0 && open > 0 ==> forall k :: open <= k < |s| ==> !StartsWith(s[k..], close, true))
  {
    var open, close := TagLen("<" + tag, s), "</" + tag + ">";
    if open > 0 {
      FirstLiteralAfter(s, open, close);
      match FindFirst(s[open..], Lit(close, true))
      case None =>
      case Some(j) =>
        assert BlockLen(tag, s) == open + j + |close|;
    }
  }

  /** Where the first case-insensitive `lit` at or after `open` starts, as
      the search over the rest of the text finds it. */
  lemma FirstLiteralAfter(s: string, open: nat, lit: string)
    requires open <= |s| && |lit| > 0
    ensures match FindFirst(s[open..], Lit(lit, true))
      case None => forall k :: open <= k < |s| ==> !StartsWith(s[k..], lit, true)
      case Some(j) => open + j + |lit| <= |s| && StartsWith(s[open + j..], lit, true)
                      && forall k :: open <= k < open + j ==> !StartsWith(s[k..], lit, true)
  {
    var t := s[open..];
    var m := Lit(lit, true);
    forall k | open <= k < |s| && StartsWith(s[k..], lit, true) ensures MatchAt(m, t, k - open) {
      assert t[k - open..] == s[k..];
    }
    match FindFirst(t, m)
    case None =>
    case Some(j) =>
      assert t[j..] == s[open + j..];
  }

  function BlockM(tag: string): Matcher
    requires |tag| > 0
  {
    s => BlockLen(tag, s)
  }

  /** `<script[^>]*\/\s*>` with `/i`: a script tag whose text before its
      first `>` ends in `/` and whitespace. */
  function SelfClosingLen(s: string): (r: nat)
    ensures r <= |s|
    ensures r > 0 ==> r == TagLen("<script", s)
  {
    if StartsWith(s, "<script", true) then
      match FirstIndex(s[7..], '>')
      case None => 0
      case Some(g) =>
        var inner := TrimEnd(s[7..7 + g], IsJsSpace);
        assert s[7..][g] == s[7 + g];
        if inner != [] && inner[|inner| - 1] == '/' then 7 + g + 1 else 0
    else 0
  }

  function SelfClosingM(): Matcher {
    s => SelfClosingLen(s)
  }

  /** `\s*["'][^"']*["']` from position `b`: the bounds of the quoted value
      (the closing quote is the first quote of either kind after the
      opening one). */
  function Quoted(s: string, b: nat): (r: Option<(nat, nat)>)
    requires b <= |s|
    ensures r.Some? ==> b < r.value.0 <= r.value.1 < |s| && IsQuote(s[r.value.1])
  {
    var c := b + SpaceRun(s[b..]);
    if c >= |s| || !IsQuote(s[c]) then None
    else match FirstQuote(s[c + 1..])
      case None => None
      case Some(d) =>
        assert s[c + 1..][d] == s[c + 1 + d];
        Some((c + 1, c + 1 + d))
  }

  /** `\s+name\s*=\s*["'][^"']*["']` with `/i`: one attribute, with the
      whitespace before it. */
  function AttrLen(name: string, s: string): (r: nat)
    ensures r <= |s|
    ensures r > 0 ==> IsJsSpace(s[0]) && IsQuote(s[r - 1])
  {
    var a := SpaceRun(s);
    if a == 0 || !StartsWith(s[a..], name, true) then 0
    else
      var e := a + |name| + SpaceRun(s[a + |name|..]);
      if e >= |s| || s[e] != '=' then 0
      else match Quoted(s, e + 1)
        case None => 0
        case Some(v) => v.1 + 1
  }

  function AttrM(name: string): Matcher {
    s => AttrLen(name, s)
  }

  /** The three value tests of the `data-*` removals: the value mentions
      `addEventListener`, `javascript`, or `on` followed by a word
      character. */
  datatype ValueTest = MentionsAddEventListener | MentionsJavascript | MentionsOnWord

  predicate IsWordChar(c: char) {
    'a' <= c <= 'z' || 'A' <= c <= 'Z' || '0' <= c <= '9' || c == '_'
  }

  predicate Passes(test: ValueTest, v: string) {
    match test
    case MentionsAddEventListener => Occurs(v, "addEventListener", true)
    case MentionsJavascript => Occurs(v, "javascript", true)
    case MentionsOnWord => exists i :: 0 <= i && i + 2 < |v| && StartsWith(v[i..], "on", true) && IsWordChar(v[i + 2])
  }

  /** `\s+data-[^=]*=\s*["'][^"']*KEYWORD[^"']*["']` with `/i`: a `data-*`
      attribute (its name runs to the first `=`) whose quoted value passes
      `test`. */
  function DataAttrLen(test: ValueTest, s: string): (r: nat)
    ensures r <= |s|
    ensures r > 0 ==> IsJsSpace(s[0]) && IsQuote(s[r - 1])
  {
    var a := SpaceRun(s);
    if a == 0 || !StartsWith(s[a..], "data-", true) then 0
    else match FirstIndex(s[a + 5..], '=')
      case None => 0
      case Some(e) =>
        assert s[a + 5..][e] == s[a + 5 + e];
        match Quoted(s, a + 5 + e + 1)
        case None => 0
        case Some(v) => if Passes(test, s[v.0..v.1]) then v.1 + 1 else 0
  }

  function DataAttrM(test: ValueTest): Matcher {
    s => DataAttrLen(test, s)
  }

  /** `<script[^>]*>`: any opening script tag. */
  function ScriptOpen(): Matcher {
    TagM("<script")
  }

  /** No opening script tag is left anywhere in `s`. */
  predicate NoScriptTag(s: string) {
    forall i :: 0 <= i < |s| ==> !MatchAt(ScriptOpen(), s, i)
  }

  // ---------------------------------------------------------------------
  // removeScripts

  /** The inline event handler attributes that are stripped, in order. */
  const InlineHandlers: seq<string> := [
    "onclick", "onmouseover", "onmouseout", "onmousedown", "onmouseup", "onmousemove",
    "ontouchstart", "ontouchend", "ontouchmove", "onload", "onerror", "onchange",
    "onsubmit", "onfocus", "onblur", "onkeydown", "onkeyup", "onkeypress",
    "ondblclick", "oncontextmenu", "onwheel", "onscroll", "onresize"
  ]

  /** The four script-tag passes: whole script blocks, stray opening tags,
      stray closing tags, self-closing tags, each replaced by a comment. */
  function StripScriptTags(html: string): string {
    var h1 := ReplaceAll(html, BlockM("script"), "<!-- Removed script -->");
    var h2 := ReplaceAll(h1, ScriptOpen(), "<!-- Removed script tag -->");
    var h3 := ReplaceAll(h2, Lit("</script>", true), "<!-- Removed script close tag -->");
    ReplaceAll(h3, SelfClosingM(), "<!-- Removed self-closing script -->")
  }

  function StripBaseUrlAttr(html: string): string {
    ReplaceAll(html, AttrM("data-base-url"), "")
  }

  /** Removing the handler attributes `hs`, one after the other. */
  function StripHandlers(html: string, hs: seq<string>): string
    decreases |hs|
  {
    if hs == [] then html
    else ReplaceAll(StripHandlers(html, hs[..|hs| - 1]), AttrM(hs[|hs| - 1]), "")
  }

  function StripDataScripts(html: string): string {
    var h1 := ReplaceAll(html, DataAttrM(MentionsAddEventListener), "");
    var h2 := ReplaceAll(h1, DataAttrM(MentionsJavascript), "");
    ReplaceAll(h2, DataAttrM(MentionsOnWord), "")
  }

  function StripNoscript(html: string): string {
    ReplaceAll(html, BlockM("noscript"), "<!-- Removed noscript -->")
  }

  /** What `removeScripts` returns, pass by pass in the order of the
      source. Its last pass leaves no `noscript` block. */
  function StripScripts(html: string): (r: string)
    ensures NoNoscriptBlock(r)
  {
    var h := StripDataScripts(StripHandlers(StripBaseUrlAttr(StripScriptTags(html)), InlineHandlers));
    NoscriptBlocksGone(h);
    StripNoscript(h)
  }

  /** `removeScripts`: the passes of `StripScripts`, the handler attributes
      removed one at a time. */
  method RemoveScripts(html: string) returns (r: string)
    ensures r == StripScripts(html)
  {
    var modified := StripScriptTags(html);
    modified := StripBaseUrlAttr(modified);
    modified := RemoveHandlers(modified, InlineHandlers);
    modified := StripDataScripts(modified);
    r := StripNoscript(modified);
  }

  /** The `forEach` over the handler names. */
  method RemoveHandlers(html: string, handlers: seq<string>) returns (r: string)
    ensures r == StripHandlers(html, handlers)
  {
    r := html;
    for i := 0 to |handlers|
      invariant r == StripHandlers(html, handlers[..i])
    {
      r := ReplaceAll(r, AttrM(handlers[i]), "");
      assert handlers[..i + 1][..i] == handlers[..i];
    }
    assert handlers[..|handlers|] == handlers;
  }

  // ---------------------------------------------------------------------
  // What the noscript pass guarantees

  /** No `<noscript…>…</noscript>` block is left anywhere in `s`. */
  predicate NoNoscriptBlock(s: string) {
    forall i :: 0 <= i < |s| ==> !MatchAt(BlockM("noscript"), s, i)
  }

  /** The `noscript` pass leaves no block behind: its comment cannot begin
      one, and a `<noscript` tag that is not replaced has no closing tag
      after it, so nothing after it is replaced either and it stays
      incomplete. */
  lemma {:induction false} NoscriptBlocksGone(s: string)
    ensures NoNoscriptBlock(StripNoscript(s))
    decreases |s|
  {
    var m := BlockM("noscript");
    var c := "<!-- Removed noscript -->";
    var q := "<noscript";
    CommentIsInert(c, q);
    if s == [] {
      assert StripNoscript(s) == [];
    } else if 0 < m(s) <= |s| {
      var n := m(s);
      assert StripNoscript(s) == c + StripNoscript(s[n..]);
      NoscriptBlocksGone(s[n..]);
      NoBlockConcat(c, StripNoscript(s[n..]));
    } else {
      var o' := StripNoscript(s[1..]);
      assert StripNoscript(s) == [s[0]] + o';
      NoscriptBlocksGone(s[1..]);
      assert "<" + "noscript" == q;
      if StartsWith(s, q, true) {
        IncompleteNoscriptStays(s);
      } else {
        FrontOccurrenceM(s, m, c, q, true);
        assert TagLen(q, StripNoscript(s)) == 0;
      }
      NoBlockCons(s[0], o');
    }
  }

  /** A text opening with a `<noscript` tag that starts no complete block
      holds no block at all, so the pass leaves it as it is. */
  lemma IncompleteNoscriptStays(s: string)
    requires StartsWith(s, "<noscript", true) && !(0 < BlockLen("noscript", s) <= |s|)
    ensures BlockLen("noscript", StripNoscript(s)) == 0
  {
    var m := BlockM("noscript");
    assert "<" + "noscript" == "<noscript";
    forall i | 0 <= i < |s| ensures !MatchAt(m, s, i) {
      if i == 0 {
        assert s[0..] == s;
      } else if MatchAt(m, s, i) {
        BlockLater("noscript", s, i);
      }
    }
    NoMatchIdentity(s, m, "<!-- Removed noscript -->");
  }

  /** A text that opens with `<noscript` and holds a complete block further
      on is itself a complete block: its own tag closes at or before the
      inner tag's `>`, and the inner closing tag follows. */
  lemma BlockLater(tag: string, s: string, i: nat)
    requires |tag| > 0 && StartsWith(s, "<" + tag, true) && 0 < i < |s| && MatchAt(BlockM(tag), s, i)
    ensures BlockLen(tag, s) > 0
  {
    var q := "<" + tag;
    var close := "</" + tag + ">";
    var t := s[i..];
    var oi := TagLen(q, t);
    BlockParts(tag, t);
    assert t[oi - 1] == s[i + oi - 1];
    TagCloses(s, q, i + oi - 1);
    var j := FindFirst(t[oi..], Lit(close, true)).value;
    assert MatchAt(Lit(close, true), t[oi..], j);
    assert Lit(close, true)(t[oi..][j..]) == LitLen(close, true, t[oi..][j..]);
    assert StartsWith(t[oi..][j..], close, true);
    assert t[oi..][j..] == s[i + oi + j..];
    CloseFoundAfter(s, TagLen(q, s), i + oi + j, close);
    BlockWhole(tag, s);
  }

  /** The two halves of a block: a closed opening tag, and a closing tag
      somewhere after it. */
  lemma BlockParts(tag: string, t: string)
    requires |tag| > 0 && BlockLen(tag, t) > 0
    ensures var oi := TagLen("<" + tag, t);
      0 < oi && t[oi - 1] == '>' && FindFirst(t[oi..], Lit("</" + tag + ">", true)).Some?
  {
  }

  lemma BlockWhole(tag: string, s: string)
    requires |tag| > 0 && TagLen("<" + tag, s) > 0
    requires FindFirst(s[TagLen("<" + tag, s)..], Lit("</" + tag + ">", true)).Some?
    ensures BlockLen(tag, s) > 0
  {
  }

  /** A `>` after the prefix closes the tag, at the latest there. */
  lemma TagCloses(s: string, q: string, p: nat)
    requires |q| > 0 && StartsWith(s, q, true) && |q| <= p < |s| && s[p] == '>'
    ensures 0 < TagLen(q, s) <= p + 1
  {
    if TagLen(q, s) == 0 {
      TagLenZero(q, s);
    }
  }

  /** A literal at `p` is found when searching from any `open <= p`. */
  lemma CloseFoundAfter(s: string, open: nat, p: nat, lit: string)
    requires open <= p < |s| && |lit| > 0 && StartsWith(s[p..], lit, true)
    ensures FindFirst(s[open..], Lit(lit, true)).Some?
  {
    assert s[open..][p - open..] == s[p..];
    assert MatchAt(Lit(lit, true), s[open..], p - open);
    assert p - open < |s[open..]|;
  }

  /** A replacement that cannot hold a `<noscript` keeps a block-free rest
      block-free. */
  lemma NoBlockConcat(r: string, o: string)
    requires Inert(r, "<noscript", true)
    requires NoNoscriptBlock(o)
    ensures NoNoscriptBlock(r + o)
  {
    var q := "<noscript";
    var x := r + o;
    assert "<" + "noscript" == q;
    forall i | 0 <= i < |x| ensures !MatchAt(BlockM("noscript"), x, i) {
      if i < |r| {
        assert !Compat(r[i..], q, true);
        var k :| 0 <= k < |r[i..]| && k < |q| && !EqC(true, r[i..][k], q[k]);
        assert r[i..][k] == x[i..][k];
        assert !StartsWith(x[i..], q, true);
      } else {
        assert x[i..] == o[i - |r|..];
        assert !MatchAt(BlockM("noscript"), o, i - |r|);
      }
    }
  }

  lemma NoBlockCons(c: char, o: string)
    requires NoNoscriptBlock(o)
    requires BlockLen("noscript", [c] + o) == 0
    ensures NoNoscriptBlock([c] + o)
  {
    var x := [c] + o;
    forall i | 0 <= i < |x| ensures !MatchAt(BlockM("noscript"), x, i) {
      if i > 0 {
        assert x[i..] == o[i - 1..];
        assert !MatchAt(BlockM("noscript"), o, i - 1);
      } else {
        assert x[0..] == x;
      }
    }
  }

  // ---------------------------------------------------------------------
  // What the script-tag passes guarantee

  /** Every match of `m` ends with `>`. */
  ghost predicate EndsWithGt(m: Matcher) {
    forall t :: 0 < m(t) <= |t| ==> t[m(t) - 1] == '>'
  }

  /** A replacement comment like `<!-- … -->`: it opens with `<!` and has no
      other `<`, so no `<script` or `</script>` can begin inside it or run
      into it. */
  lemma CommentIsInert(r: string, q: string)
    requires |r| >= 2 && r[0] == '<' && r[1] == '!' && forall k :: 1 <= k < |r| ==> r[k] != '<'
    requires |q| >= 2 && q[0] == '<' && q[1] != '!' && forall k :: 1 <= k < |q| ==> q[k] != '<'
    ensures Inert(r, q, true)
  {
    forall t | 0 <= t < |r| ensures !Compat(r[t..], q, true) {
      if t == 0 {
        assert !EqC(true, r[t..][1], q[1]);
      } else {
        assert !EqC(true, r[t..][0], q[0]);
      }
    }
    forall j | 1 <= j < |q| ensures !Compat(q[j..], r, true) {
      assert !EqC(true, q[j..][0], r[0]);
    }
  }

  /** The replacement comments of the script passes. */
  lemma CommentsAreInert()
    ensures Inert("<!-- Removed script tag -->", "<script", true)
    ensures Inert("<!-- Removed script close tag -->", "<script", true)
    ensures Inert("<!-- Removed script close tag -->", "</script>", true)
    ensures Inert("<!-- Removed noscript -->", "<script", true)
    ensures Inert("<!-- Removed noscript -->", "</script>", true)
  {
    CommentIsInert("<!-- Removed script tag -->", "<script");
    CommentIsInert("<!-- Removed script close tag -->", "<script");
    CommentIsInert("<!-- Removed script close tag -->", "</script>");
    CommentIsInert("<!-- Removed noscript -->", "<script");
    CommentIsInert("<!-- Removed noscript -->", "</script>");
  }

  /** A replace-all whose matches end with `>` and whose replacement cannot
      hold or complete a `<script` leaves no opening script tag, provided
      every opening script tag of the input is a match (`m` is the
      opening-tag pattern itself, or there is no such tag to begin with). */
  lemma {:induction false} NoScriptTagAfter(s: string, m: Matcher, r: string)
    requires EndsWithGt(m)
    requires forall i :: 0 <= i < |s| && MatchAt(ScriptOpen(), s, i) ==> MatchAt(m, s, i)
    requires Inert(r, "<script", true)
    ensures NoScriptTag(ReplaceAll(s, m, r))
    decreases |s|
  {
    var o := ReplaceAll(s, m, r);
    if s == [] {
      assert o == [];
    } else if 0 < m(s) <= |s| {
      var n := m(s);
      assert o == r + ReplaceAll(s[n..], m, r);
      forall i | 0 <= i < |s[n..]| && MatchAt(ScriptOpen(), s[n..], i) ensures MatchAt(m, s[n..], i) {
        assert s[n..][i..] == s[n + i..];
        assert MatchAt(ScriptOpen(), s, n + i);
      }
      NoScriptTagAfter(s[n..], m, r);
      NoScriptTagConcat(r, ReplaceAll(s[n..], m, r));
    } else {
      assert o == [s[0]] + ReplaceAll(s[1..], m, r);
      forall i | 0 <= i < |s[1..]| && MatchAt(ScriptOpen(), s[1..], i) ensures MatchAt(m, s[1..], i) {
        assert s[1..][i..] == s[1 + i..];
        assert MatchAt(ScriptOpen(), s, 1 + i);
      }
      NoScriptTagAfter(s[1..], m, r);
      assert s[0..] == s;
      FrontTag(s, m, r);
      NoScriptTagCons(s[0], ReplaceAll(s[1..], m, r));
    }
  }

  /** A replacement that cannot hold a `<script` keeps a tag-free rest
      tag-free. */
  lemma NoScriptTagConcat(r: string, o: string)
    requires Inert(r, "<script", true)
    requires NoScriptTag(o)
    ensures NoScriptTag(r + o)
  {
    var q := "<script";
    var x := r + o;
    forall i | 0 <= i < |x| ensures !MatchAt(ScriptOpen(), x, i) {
      assert ScriptOpen()(x[i..]) == TagLen(q, x[i..]);
      if i < |r| {
        assert !Compat(r[i..], q, true);
        var k :| 0 <= k < |r[i..]| && k < |q| && !EqC(true, r[i..][k], q[k]);
        assert r[i..][k] == x[i..][k];
        assert !StartsWith(x[i..], q, true);
      } else {
        assert x[i..] == o[i - |r|..];
        assert !MatchAt(ScriptOpen(), o, i - |r|);
      }
    }
  }

  lemma NoScriptTagCons(c: char, o: string)
    requires NoScriptTag(o)
    requires TagLen("<script", [c] + o) == 0
    ensures NoScriptTag([c] + o)
  {
    var x := [c] + o;
    forall i | 0 <= i < |x| ensures !MatchAt(ScriptOpen(), x, i) {
      assert ScriptOpen()(x[i..]) == TagLen("<script", x[i..]);
      if i > 0 {
        assert x[i..] == o[i - 1..];
        assert !MatchAt(ScriptOpen(), o, i - 1);
      } else {
        assert x[0..] == x;
      }
    }
  }

  /** The front case of `NoScriptTagAfter`: a `<script` that starts the
      output started the input, which then had no `>` after it, so nothing
      was replaced and the output has no `>` after it either. */
  lemma FrontTag(s: string, m: Matcher, r: string)
    requires s != [] && !(0 < m(s) <= |s|)
    requires EndsWithGt(m)
    requires MatchAt(ScriptOpen(), s, 0) ==> MatchAt(m, s, 0)
    requires Inert(r, "<script", true)
    ensures TagLen("<script", ReplaceAll(s, m, r)) == 0
  {
    var q := "<script";
    var o := ReplaceAll(s, m, r);
    assert s[0..] == s;
    if StartsWith(o, q, true) {
      forall j | 0 <= j < |q| && j < |s|
        ensures !(MatchAt(m, s, j) && (forall k :: 0 <= k < j ==> EqC(true, s[k], q[k])) && Compat(q[j..], r, true))
      {
      }
      StartOfReplaceM(s, m, r, true, q);
      assert StartsWith(s, q, true);
      assert TagLen(q, s) == 0;
      TagLenZero(q, s);
      forall i | 0 <= i < |s| ensures !MatchAt(m, s, i) {
        forall k | i <= k < |s| ensures s[k] != '>' {
          if k < 7 {
            assert EqC(true, s[k], q[k]);
          }
        }
        var t := s[i..];
        assert forall k :: 0 <= k < |t| ==> t[k] != '>';
      }
      NoMatchIdentity(s, m, r);
    }
  }

  lemma TagEndsWithGt(prefix: string)
    requires |prefix| > 0
    ensures EndsWithGt(TagM(prefix))
  {
  }

  lemma CloseTagEndsWithGt()
    ensures EndsWithGt(Lit("</script>", true))
  {
    forall t | 0 < Lit("</script>", true)(t) <= |t| ensures t[Lit("</script>", true)(t) - 1] == '>' {
      assert EqC(true, t[8], "</script>"[8]);
    }
  }

  lemma BlockEndsWithGt(tag: string)
    requires |tag| > 0
    ensures EndsWithGt(BlockM(tag))
  {
  }

  /** After the four script-tag passes no opening and no closing script tag
      is left. */
  lemma ScriptTagsGone(html: string)
    ensures NoScriptTag(StripScriptTags(html))
    ensures !Occurs(StripScriptTags(html), "</script>", true)
  {
    var h1 := ReplaceAll(html, BlockM("script"), "<!-- Removed script -->");
    var h2 := ReplaceAll(h1, ScriptOpen(), "<!-- Removed script tag -->");
    var h3 := ReplaceAll(h2, Lit("</script>", true), "<!-- Removed script close tag -->");
    OpenTagPassLeavesNoTag(h1);
    CloseTagPassLeavesNoTag(h2);
    SelfClosingIsIdle(h3);
  }

  lemma OpenTagPassLeavesNoTag(h: string)
    ensures NoScriptTag(ReplaceAll(h, ScriptOpen(), "<!-- Removed script tag -->"))
  {
    TagEndsWithGt("<script");
    CommentsAreInert();
    NoScriptTagAfter(h, ScriptOpen(), "<!-- Removed script tag -->");
  }

  lemma CloseTagPassLeavesNoTag(h: string)
    requires NoScriptTag(h)
    ensures NoScriptTag(ReplaceAll(h, Lit("</script>", true), "<!-- Removed script close tag -->"))
    ensures !Occurs(ReplaceAll(h, Lit("</script>", true), "<!-- Removed script close tag -->"), "</script>", true)
  {
    var c := "<!-- Removed script close tag -->";
    CloseTagEndsWithGt();
    CommentsAreInert();
    NoScriptTagAfter(h, Lit("</script>", true), c);
    NoOccurrenceAfterReplace(h, "</script>", c, "</script>", true);
  }

  /** Once no opening script tag is left, the self-closing pass finds
      nothing. */
  lemma SelfClosingIsIdle(h: string)
    requires NoScriptTag(h)
    ensures ReplaceAll(h, SelfClosingM(), "<!-- Removed self-closing script -->") == h
  {
    forall i | 0 <= i < |h| ensures !MatchAt(SelfClosingM(), h, i) {
      assert !MatchAt(ScriptOpen(), h, i);
      assert ScriptOpen()(h[i..]) == TagLen("<script", h[i..]);
    }
    NoMatchIdentity(h, SelfClosingM(), "<!-- Removed self-closing script -->");
  }

  // ---------------------------------------------------------------------
  // The corrected removal

  /** The attribute removals of `removeScripts`: the `data-base-url`
      attribute, the inline handlers, then the `data-*` values with script. */
  function AttributePasses(html: string): string {
    StripDataScripts(StripHandlers(StripBaseUrlAttr(html), InlineHandlers))
  }

  /** None of the attributes the removals look for is left in `s`. */
  predicate NoRemovableAttr(s: string) {
    (forall i :: 0 <= i < |s| ==> !MatchAt(AttrM("data-base-url"), s, i))
    && (forall j, i :: 0 <= j < |InlineHandlers| && 0 <= i < |s| ==> !MatchAt(AttrM(InlineHandlers[j]), s, i))
    && (forall test: ValueTest, i :: 0 <= i < |s| ==> !MatchAt(DataAttrM(test), s, i))
  }

  /** The handler removals never lengthen a text, and keep its length only
      when none of the handlers occurs in it. */
  lemma {:induction false} HandlerDeletionShrinks(s: string, hs: seq<string>)
    ensures |StripHandlers(s, hs)| <= |s|
    ensures |StripHandlers(s, hs)| == |s| ==>
      StripHandlers(s, hs) == s && forall j, i :: 0 <= j < |hs| && 0 <= i < |s| ==> !MatchAt(AttrM(hs[j]), s, i)
    decreases |hs|
  {
    if hs != [] {
      var n := |hs|;
      var t := StripHandlers(s, hs[..n - 1]);
      var last := AttrM(hs[n - 1]);
      assert StripHandlers(s, hs) == ReplaceAll(t, last, "");
      HandlerDeletionShrinks(s, hs[..n - 1]);
      DeletionShrinks(t, last);
      if |StripHandlers(s, hs)| == |s| {
        assert t == s;
        NoMatchIdentity(t, last, "");
        forall j, i | 0 <= j < n && 0 <= i < |s| ensures !MatchAt(AttrM(hs[j]), s, i) {
          if j < n - 1 {
            assert hs[..n - 1][j] == hs[j];
          }
        }
      }
    }
  }

  /** One round of the attribute removals never lengthens a text, and
      keeps its length only on a text it leaves alone and that carries
      none of the removable attributes. */
  lemma AttributePassesShrink(s: string)
    ensures |AttributePasses(s)| <= |s|
    ensures |AttributePasses(s)| == |s| ==> AttributePasses(s) == s && NoRemovableAttr(s)
  {
    var s1 := StripBaseUrlAttr(s);
    var s2 := StripHandlers(s1, InlineHandlers);
    var s3 := ReplaceAll(s2, DataAttrM(MentionsAddEventListener), "");
    var s4 := ReplaceAll(s3, DataAttrM(MentionsJavascript), "");
    DeletionShrinks(s, AttrM("data-base-url"));
    HandlerDeletionShrinks(s1, InlineHandlers);
    DeletionShrinks(s2, DataAttrM(MentionsAddEventListener));
    DeletionShrinks(s3, DataAttrM(MentionsJavascript));
    DeletionShrinks(s4, DataAttrM(MentionsOnWord));
    if |AttributePasses(s)| == |s| {
      NoMatchIdentity(s, AttrM("data-base-url"), "");
      assert s2 == s;
      NoMatchIdentity(s2, DataAttrM(MentionsAddEventListener), "");
      NoMatchIdentity(s3, DataAttrM(MentionsJavascript), "");
      NoMatchIdentity(s4, DataAttrM(MentionsOnWord), "");
      assert s4 == s;
      forall test: ValueTest, i | 0 <= i < |s| ensures !MatchAt(DataAttrM(test), s, i) {
        match test
        case MentionsAddEventListener => assert !MatchAt(DataAttrM(test), s2, i);
        case MentionsJavascript => assert !MatchAt(DataAttrM(test), s3, i);
        case MentionsOnWord => assert !MatchAt(DataAttrM(test), s4, i);
      }
    }
  }

  /** The attribute removals repeated until a round removes nothing. The
      result carries none of the attributes they look for, however the
      removals join the text around them. */
  function StripAttributesFixed(html: string): (r: string)
    ensures NoRemovableAttr(r)
    ensures |r| <= |html|
    decreases |html|
  {
    var h := AttributePasses(html);
    AttributePassesShrink(html);
    if |h| == |html| then html else StripAttributesFixed(h)
  }

  /** `removeScripts` corrected: the attribute removals repeated until
      none applies, then the script-tag passes, so that no removal can join
      the pieces of a tag or of an attribute again. */
  function StripScriptsFixed(html: string): (r: string)
    ensures NoNoscriptBlock(r)
  {
    var h := StripScriptTags(StripAttributesFixed(html));
    NoscriptBlocksGone(h);
    StripNoscript(h)
  }

  /** What `removeScripts` is for: no script tag, opening or closing,
      survives the corrected order. */
  lemma StripScriptsFixedLeavesNoScript(html: string)
    ensures NoScriptTag(StripScriptsFixed(html))
    ensures !Occurs(StripScriptsFixed(html), "</script>", true)
  {
    var h0 := StripAttributesFixed(html);
    ScriptTagsGone(h0);
    NoscriptPassKeepsNoTag(StripScriptTags(h0));
  }

  lemma NoscriptPassKeepsNoTag(h: string)
    requires NoScriptTag(h) && !Occurs(h, "</script>", true)
    ensures NoScriptTag(StripNoscript(h))
    ensures !Occurs(StripNoscript(h), "</script>", true)
  {
    var c := "<!-- Removed noscript -->";
    BlockEndsWithGt("noscript");
    CommentsAreInert();
    NoScriptTagAfter(h, BlockM("noscript"), c);
    NoNewOccurrence(h, BlockM("noscript"), c, "</script>", true);
  }

  // ---------------------------------------------------------------------
  // embedSelectionScript

  /** The four escapes applied to a script body before it is put inside a
      `<script>` element. The escaped body cannot end its element early and
      cannot open or close an HTML comment. */
  function EscapeScript(text: string): (r: string)
    ensures !Occurs(r, "</script>", true)
    ensures !Occurs(r, "<!--", false)
    ensures !Occurs(r, "-->", false)
  {
    var e1 := ReplaceAll(text, Lit("</script>", false), "<\\/script>");
    var e2 := ReplaceAll(e1, Lit("<!--", false), "<\\!--");
    var e3 := ReplaceAll(e2, Lit("-->", false), "--\\>");
    EscapeCommentOpens(e1);
    EscapeCommentCloses(e2);
    EscapeCloseTags(e3);
    ReplaceAll(e3, Lit("</script>", true), "<\\/script>")
  }

  lemma EscapeCommentOpens(e1: string)
    ensures !Occurs(ReplaceAll(e1, Lit("<!--", false), "<\\!--"), "<!--", false)
  {
    EscapedCommentOpenIsInert();
    NoOccurrenceAfterReplace(e1, "<!--", "<\\!--", "<!--", false);
  }

  lemma EscapeCommentCloses(e2: string)
    requires !Occurs(e2, "<!--", false)
    ensures !Occurs(ReplaceAll(e2, Lit("-->", false), "--\\>"), "<!--", false)
    ensures !Occurs(ReplaceAll(e2, Lit("-->", false), "--\\>"), "-->", false)
  {
    EscapedCommentCloseIsInert();
    NoOccurrenceAfterReplace(e2, "-->", "--\\>", "<!--", false);
    NoOccurrenceAfterReplace(e2, "-->", "--\\>", "-->", false);
  }

  lemma EscapeCloseTags(e3: string)
    requires !Occurs(e3, "<!--", false) && !Occurs(e3, "-->", false)
    ensures !Occurs(ReplaceAll(e3, Lit("</script>", true), "<\\/script>"), "</script>", true)
    ensures !Occurs(ReplaceAll(e3, Lit("</script>", true), "<\\/script>"), "<!--", false)
    ensures !Occurs(ReplaceAll(e3, Lit("</script>", true), "<\\/script>"), "-->", false)
  {
    var e4 := ReplaceAll(e3, Lit("</script>", true), "<\\/script>");
    EscapedCloseTagIsInert();
    NoOccurrenceAfterReplace(e3, "</script>", "<\\/script>", "</script>", true);
    NotOccursCI(e3, "<!--");
    NotOccursCI(e3, "-->");
    NoOccurrenceAfterReplace(e3, "</script>", "<\\/script>", "<!--", true);
    NoOccurrenceAfterReplace(e3, "</script>", "<\\/script>", "-->", true);
    if Occurs(e4, "<!--", false) {
      OccursExactIsOccursCI(e4, "<!--");
    }
    if Occurs(e4, "-->", false) {
      OccursExactIsOccursCI(e4, "-->");
    }
  }

  /** The comment markers have no letters, so folding case finds no more
      of them. */
  lemma NotOccursCI(s: string, q: string)
    requires q == "<!--" || q == "-->"
    requires !Occurs(s, q, false)
    ensures !Occurs(s, q, true)
  {
    forall k | 0 <= k < |q| ensures !('A' <= q[k] <= 'Z') && !('a' <= q[k] <= 'z') {
    }
    if Occurs(s, q, true) {
      OccursCIOfLetterless(s, q);
    }
  }

  /** `<\!--` neither holds nor completes a `<!--`. */
  lemma EscapedCommentOpenIsInert()
    ensures forall t :: 0 <= t < |"<\\!--"| ==> !Compat("<\\!--"[t..], "<!--", false)
    ensures forall m :: 1 <= m < 4 ==> !Compat("<!--"[m..], "<\\!--", false)
  {
    var r, q := "<\\!--", "<!--";
    forall t | 0 <= t < |r| ensures !Compat(r[t..], q, false) {
      if t == 0 { assert r[t..][1] != q[1]; } else { assert r[t..][0] != q[0]; }
    }
    forall m | 1 <= m < 4 ensures !Compat(q[m..], r, false) {
      assert q[m..][0] != r[0];
    }
  }

  /** `--\>` holds no `<!--` and no `-->`; what runs into it from the left
      ran into `-->` in the input. */
  lemma EscapedCommentCloseIsInert()
    ensures forall t :: 0 <= t < |"--\\>"| ==> !Compat("--\\>"[t..], "<!--", false)
    ensures forall t :: 0 <= t < |"--\\>"| ==> !Compat("--\\>"[t..], "-->", false)
    ensures !Compat("<!--"[1..], "--\\>", false)
    ensures forall m :: 2 <= m < 4 ==> StartsWith("-->", "<!--"[m..], false)
    ensures forall m :: 1 <= m < 3 ==> !Compat("-->"[m..], "--\\>", false)
  {
    var r := "--\\>";
    forall t | 0 <= t < |r| ensures !Compat(r[t..], "<!--", false) {
      assert r[t..][0] != '<';
    }
    forall t | 0 <= t < |r| ensures !Compat(r[t..], "-->", false) {
      if t == 0 { assert r[t..][2] != '>'; }
      else if t == 1 { assert r[t..][1] != '-'; }
      else { assert r[t..][0] != '-'; }
    }
    assert "<!--"[1..][0] != r[0];
    forall m | 2 <= m < 4 ensures StartsWith("-->", "<!--"[m..], false) {
    }
    forall m | 1 <= m < 3 ensures !Compat("-->"[m..], r, false) {
      if m == 1 { assert "-->"[m..][1] != r[1]; } else { assert "-->"[m..][0] != r[0]; }
    }
  }

  /** `<\/script>` holds no `</script>`, `<!--` or `-->`, in any case, and
      nothing runs into it from the left. */
  lemma EscapedCloseTagIsInert()
    ensures forall t :: 0 <= t < 10 ==> !Compat("<\\/script>"[t..], "</script>", true)
    ensures forall t :: 0 <= t < 10 ==> !Compat("<\\/script>"[t..], "<!--", true)
    ensures forall t :: 0 <= t < 10 ==> !Compat("<\\/script>"[t..], "-->", true)
    ensures forall m :: 1 <= m < 9 ==> !Compat("</script>"[m..], "<\\/script>", true)
    ensures forall m :: 1 <= m < 4 ==> !Compat("<!--"[m..], "<\\/script>", true)
    ensures forall m :: 1 <= m < 3 ==> !Compat("-->"[m..], "<\\/script>", true)
  {
    EscapedCloseTagHolds("</script>");
    EscapedCloseTagHolds("<!--");
    EscapedCloseTagHolds("-->");
    EscapedCloseTagEntered("</script>");
    EscapedCloseTagEntered("<!--");
    EscapedCloseTagEntered("-->");
  }

  lemma EscapedCloseTagHolds(q: string)
    requires q == "</script>" || q == "<!--" || q == "-->"
    ensures forall t :: 0 <= t < 10 ==> !Compat("<\\/script>"[t..], q, true)
  {
    var r := "<\\/script>";
    assert |r| == 10;
    forall t | 0 <= t < 10 ensures !Compat(r[t..], q, true) {
      if t == 0 && q != "-->" {
        assert r[t..][1] == '\\';
        assert !EqC(true, r[t..][1], q[1]);
      } else {
        assert r[t..][0] == r[t];
        assert !EqC(true, r[t..][0], q[0]);
      }
    }
  }

  lemma EscapedCloseTagEntered(q: string)
    requires q == "</script>" || q == "<!--" || q == "-->"
    ensures forall m :: 1 <= m < |q| ==> !Compat(q[m..], "<\\/script>", true)
  {
    forall m | 1 <= m < |q| ensures !Compat(q[m..], "<\\/script>", true) {
      assert q[m..][0] == q[m];
      assert !EqC(true, q[m..][0], '<');
    }
  }
  /** The opening tags of the two embedded scripts and the closing tag. */
  const NavigationOpen := "<script id=\"parser-navigation-script\" type=\"text/javascript\">"
  const SelectionOpen := "<script id=\"parser-selection-script\" type=\"text/javascript\">"
  const ScriptClose := "</script>"

  /** The navigation script, then the selection script, each escaped. */
  function ScriptsTag(selection: string, navigation: string): string {
    NavigationOpen + EscapeScript(navigation) + ScriptClose + SelectionOpen + EscapeScript(selection) + ScriptClose
  }

  /** Where the scripts go, as the `includes` tests of the cascade decide:
      after the doctype, after the `<html…>` tag, before `</head>`, after
      `<head>`, after the `<body…>` tag, before `</body>`, or in front. */
  datatype Anchor = AfterDoctype | AfterHtml | BeforeHeadEnd | AfterHead | AfterBody | BeforeBodyEnd | Front

  function ChooseAnchor(html: string): Anchor {
    if Includes(html, "<!DOCTYPE") || Includes(html, "<!doctype") then AfterDoctype
    else if Includes(html, "<html") then AfterHtml
    else if Includes(html, "</head>") then BeforeHeadEnd
    else if Includes(html, "<head>") then AfterHead
    else if Includes(html, "<body") then AfterBody
    else if Includes(html, "</body>") then BeforeBodyEnd
    else Front
  }

  /** The end of the first match of `prefix[^>]*>`, if any. */
  function AfterFirstTag(html: string, prefix: string): (r: Option<nat>)
    requires |prefix| > 0
    ensures r.Some? ==> 0 < r.value <= |html| && html[r.value - 1] == '>'
  {
    match FindFirst(html, TagM(prefix))
    case None => None
    case Some(i) =>
      var n := TagLen(prefix, html[i..]);
      assert html[i..][n - 1] == html[i + n - 1];
      Some(i + n)
  }

  /** The position the scripts are inserted at. There is none when the
      chosen branch's pattern finds no tag: the page has `<!DOCTYPE`,
      `<html` or `<body` but no `>` after it. */
  function InsertionPoint(html: string): (r: Option<nat>)
    ensures r.Some? ==> r.value <= |html|
    ensures ChooseAnchor(html) == Front ==> r == Some(0)
  {
    match ChooseAnchor(html)
    case AfterDoctype => AfterFirstTag(html, "<!DOCTYPE")
    case AfterHtml => AfterFirstTag(html, "<html")
    case BeforeHeadEnd => FindFirst(html, Lit("</head>", false))
    case AfterHead =>
      (match FindFirst(html, Lit("<head>", false))
       case None => None
       case Some(i) => Some(i + 6))
    case AfterBody => AfterFirstTag(html, "<body")
    case BeforeBodyEnd => FindFirst(html, Lit("</body>", false))
    case Front => Some(0)
  }

  /** Lines 100-114 as written: the text goes in with `replace`, whose
      replacement template expands `$` patterns. */
  function InsertScripts(html: string, text: string): string {
    match ChooseAnchor(html)
    case AfterDoctype => ReplaceFirst(html, TagM("<!DOCTYPE"), "$1" + text, true)
    case AfterHtml => ReplaceFirst(html, TagM("<html"), "$1" + text, true)
    case BeforeHeadEnd => ReplaceFirst(html, Lit("</head>", false), text + "</head>", false)
    case AfterHead => ReplaceFirst(html, Lit("<head>", false), "<head>" + text, false)
    case AfterBody => ReplaceFirst(html, TagM("<body"), "$1" + text, true)
    case BeforeBodyEnd => ReplaceFirst(html, Lit("</body>", false), text + "</body>", false)
    case Front => text + html
  }

  /** The page with `text` put at the insertion point, or unchanged when
      there is none. */
  function Placed(html: string, text: string): string {
    match InsertionPoint(html)
    case None => html
    case Some(k) => html[..k] + text + html[k..]
  }

  /** Text without a `$` is inserted verbatim at the insertion point, and
      the page is otherwise unchanged. */
  lemma InsertScriptsPlacesText(html: string, text: string)
    requires '$' !in text
    ensures InsertScripts(html, text) == Placed(html, text)
  {
    match ChooseAnchor(html)
    case AfterDoctype => PlacedAfterTag(html, text, "<!DOCTYPE");
    case AfterHtml => PlacedAfterTag(html, text, "<html");
    case BeforeHeadEnd => PlacedBeforeLiteral(html, text, "</head>");
    case AfterHead => PlacedAfterHead(html, text);
    case AfterBody => PlacedAfterTag(html, text, "<body");
    case BeforeBodyEnd => PlacedBeforeLiteral(html, text, "</body>");
    case Front =>
      assert InsertionPoint(html) == Some(0);
      assert html[..0] + text + html[0..] == text + html;
  }

  lemma PlacedAfterTag(html: string, text: string, prefix: string)
    requires |prefix| > 0 && '$' !in text
    requires InsertScripts(html, text) == ReplaceFirst(html, TagM(prefix), "$1" + text, true)
    requires InsertionPoint(html) == AfterFirstTag(html, prefix)
    ensures InsertScripts(html, text) == Placed(html, text)
  {
    TemplateAfterTag(html, prefix, text);
  }

  lemma PlacedBeforeLiteral(html: string, text: string, lit: string)
    requires '$' !in text && '$' !in lit
    requires InsertScripts(html, text) == ReplaceFirst(html, Lit(lit, false), text + lit, false)
    requires InsertionPoint(html) == FindFirst(html, Lit(lit, false))
    ensures InsertScripts(html, text) == Placed(html, text)
  {
    InsertBeforeLiteral(html, lit, text);
  }

  lemma PlacedAfterHead(html: string, text: string)
    requires '$' !in text
    requires ChooseAnchor(html) == AfterHead
    ensures InsertScripts(html, text) == Placed(html, text)
  {
    assert |"<head>"| == 6;
    InsertAfterLiteral(html, "<head>", text);
  }

  lemma TemplateAfterTag(html: string, prefix: string, text: string)
    requires |prefix| > 0 && '$' !in text
    ensures ReplaceFirst(html, TagM(prefix), "$1" + text, true) == match AfterFirstTag(html, prefix)
      case None => html
      case Some(k) => html[..k] + text + html[k..]
  {
    AppendAfterMatch(html, TagM(prefix), text);
    match FindFirst(html, TagM(prefix))
    case None =>
    case Some(i) =>
      assert TagM(prefix)(html[i..]) == TagLen(prefix, html[i..]);
  }

  /** The cascade with replacer functions, which insert the text as it is. */
  function InsertScriptsFixed(html: string, text: string): string {
    match ChooseAnchor(html)
    case AfterDoctype => ReplaceFirstBy(html, TagM("<!DOCTYPE"), t => t + text)
    case AfterHtml => ReplaceFirstBy(html, TagM("<html"), t => t + text)
    case BeforeHeadEnd => ReplaceFirstBy(html, Lit("</head>", false), t => text + t)
    case AfterHead => ReplaceFirstBy(html, Lit("<head>", false), t => t + text)
    case AfterBody => ReplaceFirstBy(html, TagM("<body"), t => t + text)
    case BeforeBodyEnd => ReplaceFirstBy(html, Lit("</body>", false), t => text + t)
    case Front => text + html
  }

  /** Whatever the text holds, the corrected cascade puts it verbatim at the
      insertion point and leaves the page otherwise unchanged. */
  lemma InsertScriptsFixedPlacesText(html: string, text: string)
    ensures InsertScriptsFixed(html, text) == Placed(html, text)
  {
    match ChooseAnchor(html)
    case AfterDoctype => FixedAfterTag(html, text, "<!DOCTYPE");
    case AfterHtml => FixedAfterTag(html, text, "<html");
    case BeforeHeadEnd => FixedBeforeLiteral(html, text, "</head>");
    case AfterHead => FixedAfterHead(html, text);
    case AfterBody => FixedAfterTag(html, text, "<body");
    case BeforeBodyEnd => FixedBeforeLiteral(html, text, "</body>");
    case Front =>
      assert InsertionPoint(html) == Some(0);
      assert html[..0] + text + html[0..] == text + html;
  }

  lemma FixedAfterTag(html: string, text: string, prefix: string)
    requires |prefix| > 0
    requires InsertScriptsFixed(html, text) == ReplaceFirstBy(html, TagM(prefix), t => t + text)
    requires InsertionPoint(html) == AfterFirstTag(html, prefix)
    ensures InsertScriptsFixed(html, text) == Placed(html, text)
  {
    AppendedAfterTag(html, prefix, text);
  }

  lemma FixedBeforeLiteral(html: string, text: string, lit: string)
    requires |lit| > 0
    requires InsertScriptsFixed(html, text) == ReplaceFirstBy(html, Lit(lit, false), t => text + t)
    requires InsertionPoint(html) == FindFirst(html, Lit(lit, false))
    ensures InsertScriptsFixed(html, text) == Placed(html, text)
  {
    PutBeforeLiteral(html, lit, text);
  }

  lemma FixedAfterHead(html: string, text: string)
    requires ChooseAnchor(html) == AfterHead
    ensures InsertScriptsFixed(html, text) == Placed(html, text)
  {
    assert |"<head>"| == 6;
    PutAfterLiteral(html, "<head>", text);
  }

  lemma AppendedAfterTag(html: string, prefix: string, text: string)
    requires |prefix| > 0
    ensures ReplaceFirstBy(html, TagM(prefix), t => t + text) == match AfterFirstTag(html, prefix)
      case None => html
      case Some(k) => html[..k] + text + html[k..]
  {
    match FindFirst(html, TagM(prefix))
    case None =>
    case Some(i) =>
      var n := TagLen(prefix, html[i..]);
      assert html[..i] + html[i..i + n] == html[..i + n];
  }

  lemma PutBeforeLiteral(html: string, lit: string, text: string)
    requires |lit| > 0
    ensures ReplaceFirstBy(html, Lit(lit, false), t => text + t) == match FindFirst(html, Lit(lit, false))
      case None => html
      case Some(k) => html[..k] + text + html[k..]
  {
    match FindFirst(html, Lit(lit, false))
    case None =>
    case Some(i) =>
      var n := Lit(lit, false)(html[i..]);
      assert html[i..] == html[i..i + n] + html[i + n..];
  }

  lemma PutAfterLiteral(html: string, lit: string, text: string)
    requires |lit| > 0
    ensures ReplaceFirstBy(html, Lit(lit, false), t => t + text) == match FindFirst(html, Lit(lit, false))
      case None => html
      case Some(k) => html[..k + |lit|] + text + html[k + |lit|..]
  {
    match FindFirst(html, Lit(lit, false))
    case None =>
    case Some(i) =>
      var n := Lit(lit, false)(html[i..]);
      assert html[..i] + html[i..i + n] == html[..i + n];
  }

  // ---------------------------------------------------------------------
  // The base URL attribute

  /** ` data-base-url="…"` with every `"` of the URL written `&quot;`;
      empty when there is no base URL. */
  function BaseUrlAttribute(baseUrl: string): (r: string)
    ensures baseUrl == [] <==> r == []
  {
    if baseUrl == [] then []
    else " data-base-url=\"" + ReplaceAll(baseUrl, Lit("\"", false), "&quot;") + "\""
  }

  /** The escaped URL holds no `"`, so it cannot end the attribute value. */
  lemma BaseUrlValueHasNoQuote(baseUrl: string)
    ensures !Occurs(ReplaceAll(baseUrl, Lit("\"", false), "&quot;"), "\"", false)
  {
    var r := "&quot;";
    forall t | 0 <= t < |r| ensures !Compat(r[t..], "\"", false) {
      assert r[t..][0] != '"';
    }
    NoOccurrenceAfterReplace(baseUrl, "\"", r, "\"", false);
  }

  /** The end of the first `prefix[^>]*>` tag when the attribute is to be
      added to it: the page contains `prefix` (case-sensitively), the
      pattern finds a tag, and that tag has no `data-base-url` yet. */
  function AttachPoint(h: string, prefix: string): (r: Option<nat>)
    requires |prefix| > 0
    ensures r.Some? ==> r == AfterFirstTag(h, prefix)
  {
    if !Includes(h, prefix) then None
    else match FindFirst(h, TagM(prefix))
      case None => None
      case Some(i) =>
        if Includes(TagText(h, prefix, i), "data-base-url") then None else AfterFirstTag(h, prefix)
  }

  /** The attribute is attached exactly when the page includes the prefix,
      the tag pattern finds a tag, and that tag has no `data-base-url`. */
  lemma AttachPointConditions(h: string, prefix: string)
    requires |prefix| > 0
    ensures AttachPoint(h, prefix).Some? <==>
      Includes(h, prefix) && FindFirst(h, TagM(prefix)).Some?
      && !Includes(TagText(h, prefix, FindFirst(h, TagM(prefix)).value), "data-base-url")
  {
  }

  /** The text of the `prefix[^>]*>` tag that starts at `i`. */
  function TagText(h: string, prefix: string, i: nat): string
    requires |prefix| > 0 && i <= |h|
  {
    h[i..i + TagLen(prefix, h[i..])]
  }

  /** Lines 119-123 and 127-131 as written: `replace(re, '$1' + attr)`. */
  function AttachAfter(h: string, prefix: string, attr: string): string
    requires |prefix| > 0
  {
    match AttachPoint(h, prefix)
    case None => h
    case Some(_) => ReplaceFirst(h, TagM(prefix), "$1" + attr, true)
  }

  /** The attribute text lands right after the `>` that closes the tag, in
      the element's content rather than among its attributes. */
  lemma AttachAfterLandsAfterTag(h: string, prefix: string, attr: string)
    requires |prefix| > 0 && '$' !in attr
    ensures match AttachPoint(h, prefix)
      case None => AttachAfter(h, prefix, attr) == h
      case Some(k) => h[k - 1] == '>' && AttachAfter(h, prefix, attr) == h[..k] + attr + h[k..]
  {
    if AttachPoint(h, prefix).Some? {
      TemplateAfterTag(h, prefix, attr);
    }
  }

  /** The attribute put before the `>` that closes the tag. */
  function AttachInside(h: string, prefix: string, attr: string): string
    requires |prefix| > 0
  {
    match AttachPoint(h, prefix)
    case None => h
    case Some(_) => ReplaceFirstBy(h, TagM(prefix), BeforeLast(attr))
  }

  /** Puts `attr` before the last character of its argument. */
  function BeforeLast(attr: string): string -> string {
    t => if t == [] then t else t[..|t| - 1] + attr + t[|t| - 1..]
  }

  /** The corrected placement: the attribute ends right before the tag's
      closing `>`, and the tag's text up to it has no other `>`. */
  lemma AttachInsideLandsInTag(h: string, prefix: string, attr: string)
    requires |prefix| > 0 && '>' !in prefix
    ensures match AttachPoint(h, prefix)
      case None => AttachInside(h, prefix, attr) == h
      case Some(k) =>
        AttachInside(h, prefix, attr) == h[..k - 1] + attr + h[k - 1..]
        && h[k - 1] == '>'
        && exists i :: 0 <= i < k - 1 && StartsWith(h[i..], prefix, true) && forall j :: i <= j < k - 1 ==> h[j] != '>'
  {
    if AttachPoint(h, prefix).Some? {
      var i := AttachInsideAt(h, prefix, attr);
    }
  }

  /** The tag the corrected placement uses starts at `i`. */
  lemma AttachInsideAt(h: string, prefix: string, attr: string) returns (i: nat)
    requires |prefix| > 0 && '>' !in prefix && AttachPoint(h, prefix).Some?
    ensures var k := AttachPoint(h, prefix).value;
      && AttachInside(h, prefix, attr) == h[..k - 1] + attr + h[k - 1..]
      && 0 <= i < k - 1 && k <= |h| && h[k - 1] == '>'
      && StartsWith(h[i..], prefix, true) && forall j :: i <= j < k - 1 ==> h[j] != '>'
  {
    i := FindFirst(h, TagM(prefix)).value;
    var k := i + TagLen(prefix, h[i..]);
    assert AttachPoint(h, prefix) == Some(k) by {
      assert AttachPoint(h, prefix) == AfterFirstTag(h, prefix);
    }
    assert AttachInside(h, prefix, attr) == ReplaceFirstBy(h, TagM(prefix), BeforeLast(attr));
    InsideFirstTag(h, prefix, attr, i);
  }

  /** Putting `attr` before the last character of the first tag. */
  lemma InsideFirstTag(h: string, prefix: string, attr: string, i: nat)
    requires |prefix| > 0 && '>' !in prefix && FindFirst(h, TagM(prefix)) == Some(i)
    ensures var k := i + TagLen(prefix, h[i..]);
      && ReplaceFirstBy(h, TagM(prefix), BeforeLast(attr)) == h[..k - 1] + attr + h[k - 1..]
      && 0 <= i < k - 1 && k <= |h| && h[k - 1] == '>'
      && StartsWith(h[i..], prefix, true) && forall j :: i <= j < k - 1 ==> h[j] != '>'
  {
    FirstTagShape(h, prefix, i);
    ReplacedBeforeLast(h, TagM(prefix), attr, i);
  }

  /** The first tag starts with the prefix, ends with its only `>`, and
      is longer than the prefix. */
  lemma FirstTagShape(h: string, prefix: string, i: nat)
    requires |prefix| > 0 && '>' !in prefix
    requires FindFirst(h, TagM(prefix)) == Some(i)
    ensures var k := i + TagLen(prefix, h[i..]);
      && TagM(prefix)(h[i..]) == TagLen(prefix, h[i..])
      && i < k - 1 && k <= |h| && h[k - 1] == '>'
      && StartsWith(h[i..], prefix, true) && forall j :: i <= j < k - 1 ==> h[j] != '>'
  {
    var k := i + TagLen(prefix, h[i..]);
    assert MatchAt(TagM(prefix), h, i);
    assert TagM(prefix)(h[i..]) == TagLen(prefix, h[i..]);
    TagTextHasNoGt(h, prefix, i);
    assert h[k - 1] == h[i..][k - 1 - i];
  }

  /** Replacing the leftmost match of any pattern with `BeforeLast(attr)`
      puts `attr` before the match's last character. */
  lemma ReplacedBeforeLast(h: string, m: Matcher, attr: string, i: nat)
    requires FindFirst(h, m) == Some(i)
    ensures var k := i + m(h[i..]);
      0 < k <= |h| && ReplaceFirstBy(h, m, BeforeLast(attr)) == h[..k - 1] + attr + h[k - 1..]
  {
    var k := i + m(h[i..]);
    assert MatchAt(m, h, i);
    BeforeLastOf(attr, h, i, k);
    SplitBeforeGt(h, i, k, attr);
  }

  lemma BeforeLastOf(attr: string, h: string, i: nat, k: nat)
    requires i < k <= |h|
    ensures BeforeLast(attr)(h[i..k]) == h[i..k - 1] + attr + h[k - 1..k]
  {
    var t := h[i..k];
    assert t[..|t| - 1] == h[i..k - 1];
    assert t[|t| - 1..] == h[k - 1..k];
  }

  lemma SplitBeforeGt(h: string, i: nat, k: nat, attr: string)
    requires i < k <= |h|
    ensures h[..i] + (h[i..k - 1] + attr + h[k - 1..k]) + h[k..] == h[..k - 1] + attr + h[k - 1..]
  {
    assert h[..i] + h[i..k - 1] == h[..k - 1];
    assert h[k - 1..k] + h[k..] == h[k - 1..];
  }

  /** Inside the first tag matched at `i`, the only `>` is the last
      character. */
  lemma TagTextHasNoGt(h: string, prefix: string, i: nat)
    requires |prefix| > 0 && '>' !in prefix && i <= |h| && TagLen(prefix, h[i..]) > 0
    ensures StartsWith(h[i..], prefix, true)
    ensures forall j :: i <= j < i + TagLen(prefix, h[i..]) - 1 ==> h[j] != '>'
  {
    var n := TagLen(prefix, h[i..]);
    forall j | i <= j < i + n - 1 ensures h[j] != '>' {
      assert h[i..][j - i] == h[j];
      if j < i + |prefix| {
        assert EqC(true, h[i..][j - i], prefix[j - i]);
        assert prefix[j - i] != '>';
      }
    }
  }

  /** Lines 117-133 as written. */
  function AddBaseUrl(h: string, attr: string): string {
    if attr == [] then h else AttachAfter(AttachAfter(h, "<html", attr), "<body", attr)
  }

  function AddBaseUrlFixed(h: string, attr: string): string {
    if attr == [] then h else AttachInside(AttachInside(h, "<html", attr), "<body", attr)
  }

  /** `embedSelectionScript` as written. */
  function EmbedSelectionScript(html: string, selection: string, navigation: string, styles: string, baseUrl: string): string {
    AddBaseUrl(InsertScripts(html, styles + ScriptsTag(selection, navigation)), BaseUrlAttribute(baseUrl))
  }

  /** `embedSelectionScript` with both corrections: verbatim insertion and
      the attribute inside the tags. */
  function EmbedSelectionScriptFixed(html: string, selection: string, navigation: string, styles: string, baseUrl: string): string {
    AddBaseUrlFixed(InsertScriptsFixed(html, styles + ScriptsTag(selection, navigation)), BaseUrlAttribute(baseUrl))
  }

  /** `embedSelectionScript` as the source runs it: the escaped scripts
      put together, the page rewritten by the insertion cascade, then the
      base URL attribute added to the `<html>` and `<body>` tags. */
  method EmbedScripts(html: string, scriptContent: string, navigationScriptContent: string,
                      cssStyles: string, baseUrl: string) returns (r: string)
    ensures r == EmbedSelectionScript(html, scriptContent, navigationScriptContent, cssStyles, baseUrl)
  {
    var escapedSelection := EscapeScript(scriptContent);
    var escapedNavigation := EscapeScript(navigationScriptContent);
    var scriptsTag := NavigationOpen + escapedNavigation + ScriptClose + SelectionOpen + escapedSelection + ScriptClose;
    var attribute := BaseUrlAttribute(baseUrl);
    r := InsertScripts(html, cssStyles + scriptsTag);
    if attribute != [] {
      r := AttachAfter(r, "<html", attribute);
      r := AttachAfter(r, "<body", attribute);
    }
  }

  /** Text placed in two pieces lands as the pieces in order. */
  lemma PlacedPieces(html: string, a: string, b: string)
    ensures Placed(html, a + b) == match InsertionPoint(html)
      case None => html
      case Some(k) => html[..k] + a + b + html[k..]
  {
    match InsertionPoint(html)
    case None =>
    case Some(k) =>
      assert html[..k] + (a + b) + html[k..] == html[..k] + a + b + html[k..];
  }

  /** Without a base URL, the page comes back with the styles, the
      navigation script and the selection script, in that order, at the
      insertion point, and nothing else changed. */
  lemma EmbedPlacesScripts(html: string, selection: string, navigation: string, styles: string)
    ensures EmbedSelectionScriptFixed(html, selection, navigation, styles, "") == match InsertionPoint(html)
      case None => html
      case Some(k) => html[..k] + styles + ScriptsTag(selection, navigation) + html[k..]
  {
    var tag := ScriptsTag(selection, navigation);
    assert EmbedSelectionScriptFixed(html, selection, navigation, styles, "") == InsertScriptsFixed(html, styles + tag) by {
      assert BaseUrlAttribute("") == [];
    }
    InsertScriptsFixedPlacesText(html, styles + tag);
    PlacedPieces(html, styles, tag);
  }

  /** As written, without a base URL and with no `$` in the styles or the
      escaped scripts, the page gets the styles, the navigation script and
      the selection script at the insertion point, and nothing else changes. */
  lemma EmbedAsWrittenPlacesScripts(html: string, selection: string, navigation: string, styles: string)
    requires '$' !in styles + ScriptsTag(selection, navigation)
    ensures EmbedSelectionScript(html, selection, navigation, styles, "") == match InsertionPoint(html)
      case None => html
      case Some(k) => html[..k] + styles + ScriptsTag(selection, navigation) + html[k..]
  {
    var tag := ScriptsTag(selection, navigation);
    assert EmbedSelectionScript(html, selection, navigation, styles, "") == InsertScripts(html, styles + tag) by {
      assert BaseUrlAttribute("") == [];
    }
    InsertScriptsPlacesText(html, styles + tag);
    PlacedPieces(html, styles, tag);
  }

  // ---------------------------------------------------------------------
  // Counterexamples to the source as written

  /** A `$&` in the inserted text (a page URL ending up in the navigation
      script can hold one) is replaced by the matched `</head>`, while the
      corrected cascade keeps it. */
  lemma DollarPatternIsExpanded(h: string)
    requires h == "</head>"
    ensures InsertScripts(h, "$&") == h + h
    ensures InsertScriptsFixed(h, "$&") == "$&" + h
  {
    HeadEndIsChosen();
    HeadEndFoundAtStart();
    assert '$' !in h by { assert h[0] != '$' && h[1..] == "/head>"; }
    DollarAsWritten(h);
    DollarFixed(h);
  }

  lemma DollarAsWritten(h: string)
    requires h == "</head>" && '$' !in h
    requires ChooseAnchor(h) == BeforeHeadEnd
    requires FindFirst(h, Lit(h, false)) == Some(0) && Lit(h, false)(h) == |h|
    ensures InsertScripts(h, "$&") == h + h
  {
    var t := "$&" + h;
    assert InsertScripts(h, "$&") == ReplaceFirst(h, Lit(h, false), t, false);
    ReplaceWhole(h, Lit(h, false), t, false);
    ExpandDollarAmp(h);
  }

  lemma DollarFixed(h: string)
    requires h == "</head>"
    requires ChooseAnchor(h) == BeforeHeadEnd
    requires FindFirst(h, Lit(h, false)) == Some(0) && Lit(h, false)(h) == |h|
    ensures InsertScriptsFixed(h, "$&") == "$&" + h
  {
    assert InsertScriptsFixed(h, "$&") == ReplaceFirstBy(h, Lit(h, false), t => "$&" + t);
    ReplaceWholeBy(h, Lit(h, false), t => "$&" + t);
  }

  /** A match that spans the whole text is replaced by the expanded
      template with nothing before or after it. */
  lemma ReplaceWhole(h: string, m: Matcher, t: string, group: bool)
    requires FindFirst(h, m) == Some(0) && m(h) == |h|
    ensures ReplaceFirst(h, m, t, group) == Expand(t, h, [], [], group)
  {
    assert h[0..] == h && h[0..|h|] == h && h[..0] == [] && h[|h|..] == [];
  }

  lemma ReplaceWholeBy(h: string, m: Matcher, f: string -> string)
    requires FindFirst(h, m) == Some(0) && m(h) == |h|
    ensures ReplaceFirstBy(h, m, f) == f(h)
  {
    assert h[0..] == h && h[0..|h|] == h && h[..0] == [] && h[|h|..] == [];
  }

  lemma HeadEndFoundAtStart()
    ensures FindFirst("</head>", Lit("</head>", false)) == Some(0)
    ensures Lit("</head>", false)("</head>") == 7
  {
    var h := "</head>";
    assert h[0..] == h;
    assert MatchAt(Lit("</head>", false), h, 0);
  }

  lemma ExpandDollarAmp(h: string)
    requires '$' !in h
    ensures Expand("$&" + h, h, [], [], false) == h + h
  {
    var t := "$&" + h;
    assert t[0] == '$' && t[1] == '&' && t[2..] == h;
    ExpandPlain(h, h, [], [], false);
  }

  lemma HeadEndIsChosen()
    ensures ChooseAnchor("</head>") == BeforeHeadEnd
  {
    var h := "</head>";
    NotIncluded(h, "<!DOCTYPE");
    NotIncluded(h, "<!doctype");
    NoHtmlTagInHeadEnd(h);
    assert MatchAt(Lit("</head>", false), h, 0) by { assert h[0..] == h; }
  }

  lemma NoHtmlTagInHeadEnd(h: string)
    requires h == "</head>"
    ensures !Includes(h, "<html")
  {
    forall i | 0 <= i < |h| ensures !StartsWith(h[i..], "<html", false) {
      if i == 0 { assert h[i..][1] != 'h'; } else if i + 5 <= |h| { assert h[i..][0] != '<'; }
    }
    NotIncluded(h, "<html");
  }

  lemma NotIncluded(s: string, lit: string)
    requires |lit| > 0
    requires forall i :: 0 <= i < |s| ==> !StartsWith(s[i..], lit, false)
    ensures !Includes(s, lit)
  {
    forall i | 0 <= i < |s| ensures !MatchAt(Lit(lit, false), s, i) {
    }
  }

  /** Removing an inline handler can join the text around it into a script
      tag: `<scr onclick=''ipt>` passes every script-tag pass untouched and
      comes out of `removeScripts` as `<script>`. The corrected order removes
      the attribute first and then the tag. */
  lemma HandlerRemovalReassemblesScript(x: string)
    requires x == "<scr onclick=''ipt>"
    ensures StripScripts(x) == "<script>"
    ensures !NoScriptTag(StripScripts(x))
    ensures NoScriptTag(StripScriptsFixed(x))
  {
    var y := "<script>";
    CounterexampleShape(x);
    ReassembledShape(y);
    assert x[..4] + x[15..] == y;
    AttrAtSpace(x[4..]);
    StripsToJoined(x, y);
    ReassembledIsScriptTag(y);
    StripScriptsFixedLeavesNoScript(x);
  }

  /** The passes of `removeScripts` on a text shaped like the counterexample:
      only the `onclick` pass changes it, cutting out positions 4 to 14. */
  lemma StripsToJoined(x: string, y: string)
    requires |x| == 19 && x[1] == 's' && x[4] == ' ' && x[5] == 'o'
    requires forall i :: 0 < i < |x| ==> x[i] != '<'
    requires forall i :: 0 <= i < |x| && i != 4 ==> !IsJsSpace(x[i])
    requires AttrM("onclick")(x[4..]) == 11
    requires y == x[..4] + x[15..]
    requires |y| > 1 && y[1] == 's'
    requires forall i :: 0 < i < |y| ==> y[i] != '<'
    requires forall i :: 0 <= i < |y| ==> !IsJsSpace(y[i])
    ensures StripScripts(x) == y
  {
    ScriptTagPassesIdle(x, 4);
    BaseUrlPassIdle(x);
    StripHandlersFront(x, InlineHandlers);
    assert InlineHandlers[0] == "onclick";
    forall i | 0 <= i < 4 ensures !MatchAt(AttrM("onclick"), x, i) {
      NoAttrAt(x, "onclick", i);
    }
    OnclickRemoved(x, 4);
    HandlersIdle(y, InlineHandlers[1..]);
    DataPassesIdle(y);
    NoscriptPassIdle(y);
  }

  lemma CounterexampleShape(x: string)
    requires x == "<scr onclick=''ipt>"
    ensures |x| == 19 && x[1] == 's' && x[4] == ' ' && x[5] == 'o'
    ensures forall i :: 0 < i < |x| ==> x[i] != '<'
    ensures forall i :: 0 <= i < |x| && i != 4 ==> !IsJsSpace(x[i])
    ensures x[4..] == " onclick=''ipt>"
  {
  }

  lemma ReassembledShape(y: string)
    requires y == "<script>"
    ensures |y| > 1 && y[1] == 's'
    ensures forall i :: 0 < i < |y| ==> y[i] != '<'
    ensures forall i :: 0 <= i < |y| ==> !IsJsSpace(y[i])
  {
  }

  lemma ReassembledIsScriptTag(y: string)
    requires y == "<script>"
    ensures MatchAt(ScriptOpen(), y, 0)
  {
    assert y[0..] == y;
    assert StartsWith(y, "<script", true);
    assert y[7..] == ">";
    assert FirstIndex(y[7..], '>') == Some(0);
    assert ScriptOpen()(y) == TagLen("<script", y);
  }

  /** Removing an inline handler can also join the text around it into
      another handler: in `<a on onclick=''click='x'>` the `onclick` pass
      cuts out the inner ` onclick=''`, and `removeScripts` returns
      `<a onclick='x'>`, which still carries an `onclick` attribute. The
      corrected removal repeats the attribute passes until none applies. */
  lemma HandlerRemovalReassemblesHandler(x: string)
    requires x == "<a on onclick=''click='x'>"
    ensures StripScripts(x) == "<a onclick='x'>"
    ensures MatchAt(AttrM("onclick"), StripScripts(x), 2)
    ensures forall i :: 0 <= i < |StripAttributesFixed(x)| ==> !MatchAt(AttrM("onclick"), StripAttributesFixed(x), i)
  {
    var y := "<a onclick='x'>";
    HandlerJoinShapeHolds(x, y);
    StripsToJoinedHandler(x, y);
    JoinedHandlerMatches(y);
    NoOnclickLeft(x);
  }

  /** The corrected removal leaves no `onclick` attribute in any text. */
  lemma NoOnclickLeft(h: string)
    ensures forall i :: 0 <= i < |StripAttributesFixed(h)| ==> !MatchAt(AttrM("onclick"), StripAttributesFixed(h), i)
  {
    assert InlineHandlers[0] == "onclick";
  }

  /** The facts about the second counterexample that its passes depend on. */
  predicate HandlerJoinShape(x: string, y: string) {
    && |x| == 26 && x[1] == 'a' && x[2] == ' ' && x[5] == ' '
    && (forall i :: 0 < i < |x| ==> x[i] != '<')
    && (forall i :: 0 <= i < |x| && i != 2 && i != 5 ==> !IsJsSpace(x[i]))
    && SpacesBeforeO(x)
    && x[5..][1..8] == "onclick" && x[5..][8] == '=' && x[5..][9] == '\'' && x[5..][10] == '\''
    && y == x[..5] + x[16..]
    && |y| == 15 && y[1] == 'a' && y[2] == ' '
    && (forall i :: 0 < i < |y| ==> y[i] != '<')
    && (forall i :: 0 <= i < |y| && i != 2 ==> !IsJsSpace(y[i]))
    && SpacesBeforeO(y)
    && y[3..][2] == 'c' && y[3..][3] == 'l'
  }

  lemma HandlerJoinShapeHolds(x: string, y: string)
    requires x == "<a on onclick=''click='x'>" && y == "<a onclick='x'>"
    ensures HandlerJoinShape(x, y)
  {
    HandlerCounterexampleShape(x);
    JoinedHandlerShape(y);
    assert x[..5] + x[16..] == y;
  }

  lemma JoinedHandlerMatches(y: string)
    requires y == "<a onclick='x'>"
    ensures MatchAt(AttrM("onclick"), y, 2)
  {
    JoinedHandlerShape(y);
    ValueAttrLen(y[2..], "onclick");
    assert y[2..][0..] == y[2..];
  }

  /** The passes of `removeScripts` on a text shaped like the second
      counterexample: only the `onclick` pass changes it, cutting out
      positions 5 to 15. */
  lemma StripsToJoinedHandler(x: string, y: string)
    requires HandlerJoinShape(x, y)
    ensures StripScripts(x) == y
  {
    ScriptTagPassesIdle(x, 1);
    BaseUrlPassIdle(x);
    HandlerPassesJoin(x, y);
    DataPassesIdle(y);
    NoscriptPassIdle(y);
  }

  /** On such a text, the handler passes cut out the inner ` onclick=''`
      and nothing else. */
  lemma HandlerPassesJoin(x: string, y: string)
    requires |x| == 26 && x[2] == ' ' && x[5] == ' '
    requires forall i :: 0 <= i < |x| && i != 2 && i != 5 ==> !IsJsSpace(x[i])
    requires x[5..][1..8] == "onclick" && x[5..][8] == '=' && x[5..][9] == '\'' && x[5..][10] == '\''
    requires y == x[..5] + x[16..]
    requires |y| == 15 && y[2] == ' '
    requires forall i :: 0 <= i < |y| && i != 2 ==> !IsJsSpace(y[i])
    requires y[3..][2] == 'c' && y[3..][3] == 'l'
    ensures StripHandlers(x, InlineHandlers) == y
  {
    StripHandlersFront(x, InlineHandlers);
    assert InlineHandlers[0] == "onclick";
    OnclickPassJoins(x);
    OtherHandlersDiffer();
    OtherHandlersIdle(y, InlineHandlers[1..]);
  }

  /** The `onclick` pass cuts positions 5 to 15 out of such a text. */
  lemma OnclickPassJoins(x: string)
    requires |x| == 26 && x[2] == ' ' && x[5] == ' '
    requires forall i :: 0 <= i < |x| && i != 2 && i != 5 ==> !IsJsSpace(x[i])
    requires x[5..][1..8] == "onclick" && x[5..][8] == '=' && x[5..][9] == '\'' && x[5..][10] == '\''
    ensures ReplaceAll(x, AttrM("onclick"), "") == x[..5] + x[16..]
  {
    forall i | 0 <= i < 5 ensures !MatchAt(AttrM("onclick"), x, i) {
      if i == 2 {
        assert x[i + 1..][2] == ' ';
        assert !EqC(true, x[i + 1..][2], "onclick"[2]);
      }
      NoAttrAt(x, "onclick", i);
    }
    EmptyAttrLen(x[5..], "onclick");
    OnclickRemoved(x, 5);
  }

  /** Handler passes for names unlike `onclick` leave a text alone whose
      one space is followed by `o`, something, then `cl`. */
  lemma OtherHandlersIdle(y: string, hs: seq<string>)
    requires |y| > 6 && y[2] == ' '
    requires forall i :: 0 <= i < |y| && i != 2 ==> !IsJsSpace(y[i])
    requires y[3..][2] == 'c' && y[3..][3] == 'l'
    requires AllNotClickLike(hs)
    ensures StripHandlers(y, hs) == y
  {
    forall j | 0 <= j < |hs| ensures !StartsWith(y[3..], hs[j], true) {
      NotClickStart(y[3..], hs[j]);
    }
    assert NoNameAt(y[3..], hs);
    HandlersIdle(y, hs);
  }

  lemma HandlerCounterexampleShape(x: string)
    requires x == "<a on onclick=''click='x'>"
    ensures |x| == 26 && x[1] == 'a' && x[2] == ' ' && x[5] == ' '
    ensures forall i :: 0 < i < |x| ==> x[i] != '<'
    ensures forall i :: 0 <= i < |x| && i != 2 && i != 5 ==> !IsJsSpace(x[i])
    ensures SpacesBeforeO(x)
    ensures x[5..][1..8] == "onclick" && x[5..][8] == '=' && x[5..][9] == '\'' && x[5..][10] == '\''
  {
    HandlerCounterexampleSpaces(x);
    HandlerCounterexampleAttr(x);
  }

  lemma HandlerCounterexampleAttr(x: string)
    requires x == "<a on onclick=''click='x'>"
    ensures x[5..][1..8] == "onclick" && x[5..][8] == '=' && x[5..][9] == '\'' && x[5..][10] == '\''
  {
    assert x[5..] == " onclick=''click='x'>";
  }

  lemma HandlerCounterexampleSpaces(x: string)
    requires x == "<a on onclick=''click='x'>"
    ensures forall i :: 0 <= i < |x| && i != 2 && i != 5 ==> !IsJsSpace(x[i])
    ensures SpacesBeforeO(x)
  {
    assert x[3] == 'o' && x[6] == 'o';
  }

  lemma JoinedHandlerShape(y: string)
    requires y == "<a onclick='x'>"
    ensures |y| == 15 && y[1] == 'a' && y[2] == ' '
    ensures forall i :: 0 < i < |y| ==> y[i] != '<'
    ensures forall i :: 0 <= i < |y| && i != 2 ==> !IsJsSpace(y[i])
    ensures SpacesBeforeO(y)
    ensures y[3..][2] == 'c' && y[3..][3] == 'l'
    ensures y[2..][1..8] == "onclick" && y[2..][8] == '=' && y[2..][9] == '\'' && !IsQuote(y[2..][10]) && y[2..][11] == '\''
  {
  }

  /** Every handler name after `onclick` differs from it in its third or
      fourth letter. */
  lemma OtherHandlersDiffer()
    ensures AllNotClickLike(InlineHandlers[1..])
  {
    var hs := InlineHandlers[1..];
    forall j | 0 <= j < |hs| ensures NotClickLike(hs[j]) {
      var k := j + 1;
      var h := InlineHandlers[k];
      assert hs[j] == h;
      if k < 6 {
        assert h[2] == 'm';
      } else if k < 9 {
        assert h[2] == 't';
      } else if k == 9 || k == 11 || k == 15 || k == 16 || k == 17 {
        assert h[3] != 'l';
      } else if k == 18 {
        assert h[2] == 'd';
      } else if k == 19 {
        assert h[3] == 'o';
      } else {
        assert h[2] != 'c';
      }
    }
  }

  predicate AllNotClickLike(hs: seq<string>) {
    forall j :: 0 <= j < |hs| ==> NotClickLike(hs[j])
  }

  predicate NotClickLike(h: string) {
    |h| > 3 && (Lower(h[2]) != 'c' || Lower(h[3]) != 'l')
  }

  /** A text with `cl` at positions 2 and 3 starts with no name unlike `onclick` there. */
  lemma NotClickStart(t: string, h: string)
    requires |t| > 3 && t[2] == 'c' && t[3] == 'l' && NotClickLike(h)
    ensures !StartsWith(t, h, true)
  {
  }

  /** `prefix` starts with `<`, the only `<` of `x` is its first character,
      and `x` differs from `prefix` at `k`: `prefix` starts nowhere in `x`. */
  lemma PrefixNowhere(x: string, prefix: string, k: nat)
    requires k < |prefix| && prefix[0] == '<'
    requires k < |x| && Lower(x[k]) != Lower(prefix[k])
    requires forall i :: 0 < i < |x| ==> x[i] != '<'
    ensures forall i :: 0 <= i < |x| ==> !StartsWith(x[i..], prefix, true)
  {
    forall i | 0 <= i < |x| ensures !StartsWith(x[i..], prefix, true) {
      if i == 0 {
        assert x[i..][k] == x[k];
        assert !EqC(true, x[i..][k], prefix[k]);
      } else {
        assert x[i..][0] == x[i];
        assert !EqC(true, x[i..][0], prefix[0]);
      }
    }
  }

  /** A script-tag pattern needs `<script` or `</script>`, neither of which
      starts anywhere in `x`, whose only `<` comes first and which differs
      from `<script` at `k`. */
  lemma ScriptTagPassesIdle(x: string, k: nat)
    requires 0 < k < 7 && k < |x| && Lower(x[k]) != Lower("<script"[k])
    requires |x| > 1 && Lower(x[1]) != '/'
    requires forall i :: 0 < i < |x| ==> x[i] != '<'
    ensures StripScriptTags(x) == x
  {
    PrefixNowhere(x, "<script", k);
    PrefixNowhere(x, "</script>", 1);
    forall i | 0 <= i < |x| ensures !MatchAt(BlockM("script"), x, i) {
      assert "<" + "script" == "<script";
      assert BlockM("script")(x[i..]) == BlockLen("script", x[i..]);
    }
    NoMatchIdentity(x, BlockM("script"), "<!-- Removed script -->");
    forall i | 0 <= i < |x| ensures !MatchAt(ScriptOpen(), x, i) {
      assert ScriptOpen()(x[i..]) == TagLen("<script", x[i..]);
    }
    NoMatchIdentity(x, ScriptOpen(), "<!-- Removed script tag -->");
    forall i | 0 <= i < |x| ensures !MatchAt(Lit("</script>", true), x, i) {
      assert Lit("</script>", true)(x[i..]) == LitLen("</script>", true, x[i..]);
    }
    NoMatchIdentity(x, Lit("</script>", true), "<!-- Removed script close tag -->");
    forall i | 0 <= i < |x| ensures !MatchAt(SelfClosingM(), x, i) {
      assert SelfClosingM()(x[i..]) == SelfClosingLen(x[i..]);
    }
    NoMatchIdentity(x, SelfClosingM(), "<!-- Removed self-closing script -->");
  }

  /** Every whitespace character of `x` is followed by an `o`. */
  predicate SpacesBeforeO(x: string) {
    forall i :: 0 <= i < |x| && IsJsSpace(x[i]) ==> i + 1 < |x| && x[i + 1] == 'o'
  }

  /** A whitespace character followed by `o` starts a single space run
      whose text after it begins with `o`. */
  lemma SpaceThenO(x: string, i: nat)
    requires SpacesBeforeO(x) && i < |x| && IsJsSpace(x[i])
    ensures SpaceRun(x[i..]) == 1 && |x[i..][1..]| > 0 && x[i..][1..][0] == 'o'
  {
    assert x[i..][1..][0] == x[i + 1];
  }

  /** Whitespace is followed by `o` only, never by `data-base-url`. */
  lemma BaseUrlPassIdle(x: string)
    requires SpacesBeforeO(x)
    ensures StripBaseUrlAttr(x) == x
  {
    forall i | 0 <= i < |x| ensures !MatchAt(AttrM("data-base-url"), x, i) {
      assert AttrM("data-base-url")(x[i..]) == AttrLen("data-base-url", x[i..]);
      assert x[i..][0] == x[i];
      if IsJsSpace(x[i]) {
        SpaceThenO(x, i);
        assert !EqC(true, x[i..][1..][0], "data-base-url"[0]);
      }
    }
    NoMatchIdentity(x, AttrM("data-base-url"), "");
  }

  /** Whitespace is followed by `o` only, never by `data-`. */
  lemma DataPassesIdle(y: string)
    requires SpacesBeforeO(y)
    ensures StripDataScripts(y) == y
  {
    forall test: ValueTest, i | 0 <= i < |y| ensures !MatchAt(DataAttrM(test), y, i) {
      assert DataAttrM(test)(y[i..]) == DataAttrLen(test, y[i..]);
      assert y[i..][0] == y[i];
      if IsJsSpace(y[i]) {
        SpaceThenO(y, i);
        assert !EqC(true, y[i..][1..][0], "data-"[0]);
      }
    }
    NoMatchIdentity(y, DataAttrM(MentionsAddEventListener), "");
    NoMatchIdentity(y, DataAttrM(MentionsJavascript), "");
    NoMatchIdentity(y, DataAttrM(MentionsOnWord), "");
  }

  /** Removing handlers `hs` is removing `hs[0]`, then the rest. */
  lemma {:induction false} StripHandlersFront(s: string, hs: seq<string>)
    requires |hs| > 0
    ensures StripHandlers(s, hs) == StripHandlers(ReplaceAll(s, AttrM(hs[0]), ""), hs[1..])
    decreases |hs|
  {
    var t := ReplaceAll(s, AttrM(hs[0]), "");
    var n := |hs|;
    if n == 1 {
      assert hs[..0] == [] && hs[1..] == [];
      assert StripHandlers(s, hs) == ReplaceAll(StripHandlers(s, []), AttrM(hs[0]), "");
    } else {
      var init := hs[..n - 1];
      StripHandlersFront(s, init);
      assert init[0] == hs[0];
      assert init[1..] == hs[1..][..n - 2];
      assert hs[1..][n - 2] == hs[n - 1];
      assert StripHandlers(s, hs) == ReplaceAll(StripHandlers(s, init), AttrM(hs[n - 1]), "");
      assert StripHandlers(t, hs[1..]) == ReplaceAll(StripHandlers(t, hs[1..][..n - 2]), AttrM(hs[n - 1]), "");
    }
  }

  /** The `onclick` pass cuts the 11 characters ` onclick=''` at `p` out of
      `x` when no `onclick` attribute starts before `p` and no whitespace
      follows the cut. */
  lemma OnclickRemoved(x: string, p: nat)
    requires p + 11 <= |x| && AttrM("onclick")(x[p..]) == 11
    requires forall i :: 0 <= i < p ==> !MatchAt(AttrM("onclick"), x, i)
    requires forall i :: p + 11 <= i < |x| ==> !IsJsSpace(x[i])
    ensures ReplaceAll(x, AttrM("onclick"), "") == x[..p] + x[p + 11..]
  {
    var m := AttrM("onclick");
    var rest := x[p + 11..];
    assert ReplaceAll(x, m, "") == x[..p] + ReplaceAll(x[p..], m, "") by {
      ReplaceAllSkip(x, m, "", p);
    }
    assert ReplaceAll(x[p..], m, "") == ReplaceAll(rest, m, "") by {
      assert x[p..][11..] == rest;
      assert ReplaceAll(x[p..], m, "") == "" + ReplaceAll(x[p..][11..], m, "");
    }
    assert ReplaceAll(rest, m, "") == rest by {
      forall i | 0 <= i < |rest| ensures !IsJsSpace(rest[i]) {
        assert rest[i] == x[p + 11 + i];
      }
      AttrIdle(rest, "onclick");
    }
  }

  /** An attribute `name` cannot start at `i` unless `x[i]` is whitespace
      followed by a non-space character and the name. */
  lemma NoAttrAt(x: string, name: string, i: nat)
    requires i < |x|
    requires IsJsSpace(x[i]) ==> i + 1 < |x| && !IsJsSpace(x[i + 1]) && !StartsWith(x[i + 1..], name, true)
    ensures !MatchAt(AttrM(name), x, i)
  {
    assert AttrM(name)(x[i..]) == AttrLen(name, x[i..]);
    assert x[i..][0] == x[i];
    if IsJsSpace(x[i]) {
      assert x[i..][1..] == x[i + 1..];
      assert SpaceRun(x[i..]) == 1 by {
        assert x[i..][1..][0] == x[i + 1];
      }
    }
  }

  lemma AttrAtSpace(s: string)
    requires s == " onclick=''ipt>"
    ensures AttrM("onclick")(s) == 11
  {
    assert s[1..8] == "onclick";
    EmptyAttrLen(s, "onclick");
  }

  /** ` name=''` at the front of a text is an attribute of that many
      characters. */
  lemma EmptyAttrLen(s: string, name: string)
    requires |s| >= |name| + 4 && |name| > 0
    requires s[0] == ' ' && s[1..1 + |name|] == name && !IsJsSpace(name[0])
    requires s[1 + |name|] == '=' && s[2 + |name|] == '\'' && s[3 + |name|] == '\''
    ensures AttrM(name)(s) == |name| + 4
  {
    var n := |name|;
    assert SpaceRun(s) == 1 by { assert s[1..][0] == s[1] == name[0]; }
    assert StartsWith(s[1..], name, true) by {
      forall k | 0 <= k < n ensures EqC(true, s[1..][k], name[k]) {
        assert s[1..][k] == s[1..1 + n][k];
      }
    }
    assert SpaceRun(s[1 + n..]) == 0 by { assert s[1 + n..][0] == '='; }
    assert SpaceRun(s[2 + n..]) == 0 by { assert s[2 + n..][0] == '\''; }
    assert FirstQuote(s[3 + n..]) == Some(0) by { assert s[3 + n..][0] == '\''; }
    assert Quoted(s, 2 + n) == Some((3 + n, 3 + n));
    assert AttrM(name)(s) == AttrLen(name, s);
  }

  /** ` name='c'` at the front of a text, `c` not a quote, is an attribute
      of that many characters. */
  lemma ValueAttrLen(s: string, name: string)
    requires |s| >= |name| + 5 && |name| > 0
    requires s[0] == ' ' && s[1..1 + |name|] == name && !IsJsSpace(name[0])
    requires s[1 + |name|] == '=' && s[2 + |name|] == '\'' && !IsQuote(s[3 + |name|]) && s[4 + |name|] == '\''
    ensures AttrM(name)(s) == |name| + 5
    ensures MatchAt(AttrM(name), s, 0)
  {
    var n := |name|;
    assert SpaceRun(s) == 1 by { assert s[1..][0] == s[1] == name[0]; }
    assert StartsWith(s[1..], name, true) by {
      forall k | 0 <= k < n ensures EqC(true, s[1..][k], name[k]) {
        assert s[1..][k] == s[1..1 + n][k];
      }
    }
    assert SpaceRun(s[1 + n..]) == 0 by { assert s[1 + n..][0] == '='; }
    assert SpaceRun(s[2 + n..]) == 0 by { assert s[2 + n..][0] == '\''; }
    assert FirstQuote(s[3 + n..]) == Some(1) by {
      assert s[3 + n..][0] == s[3 + n];
      assert s[3 + n..][1] == '\'';
      assert s[3 + n..][1..][0] == '\'';
      assert FirstQuote(s[3 + n..][1..]) == Some(0);
    }
    assert Quoted(s, 2 + n) == Some((3 + n, 4 + n));
    assert AttrM(name)(s) == AttrLen(name, s);
    assert s[0..] == s;
  }

  /** No attribute `name` starts in `y` when every whitespace character of
      `y` is followed by a non-space character that does not begin `name`. */
  lemma AttrIdle(y: string, name: string)
    requires forall i :: 0 <= i < |y| && IsJsSpace(y[i]) ==>
      i + 1 < |y| && !IsJsSpace(y[i + 1]) && !StartsWith(y[i + 1..], name, true)
    ensures ReplaceAll(y, AttrM(name), "") == y
  {
    forall i | 0 <= i < |y| ensures !MatchAt(AttrM(name), y, i) {
      NoAttrAt(y, name, i);
    }
    NoMatchIdentity(y, AttrM(name), "");
  }

  /** None of the names `hs` begins `t`. */
  predicate NoNameAt(t: string, hs: seq<string>) {
    forall j :: 0 <= j < |hs| ==> !StartsWith(t, hs[j], true)
  }

  /** Each whitespace character of `y` is followed by a non-space character
      that begins none of the names `hs`. */
  predicate NoNameAfterSpace(y: string, hs: seq<string>) {
    forall i :: 0 <= i < |y| && IsJsSpace(y[i]) ==>
      i + 1 < |y| && !IsJsSpace(y[i + 1]) && NoNameAt(y[i + 1..], hs)
  }

  lemma {:induction false} HandlersIdle(y: string, hs: seq<string>)
    requires NoNameAfterSpace(y, hs)
    ensures StripHandlers(y, hs) == y
    decreases |hs|
  {
    if hs != [] {
      var n := |hs|;
      var init := hs[..n - 1];
      forall i | 0 <= i < |y| && IsJsSpace(y[i]) ensures NoNameAt(y[i + 1..], init) {
        forall j | 0 <= j < n - 1 ensures !StartsWith(y[i + 1..], init[j], true) {
          assert init[j] == hs[j];
        }
      }
      HandlersIdle(y, init);
      forall i | 0 <= i < |y| && IsJsSpace(y[i]) ensures !StartsWith(y[i + 1..], hs[n - 1], true) {
        assert NoNameAt(y[i + 1..], hs);
      }
      AttrIdle(y, hs[n - 1]);
    }
  }

  /** `<noscript` cannot start in a string whose only `<` comes first and is
      not followed by `n`. */
  lemma NoscriptPassIdle(y: string)
    requires |y| > 1 && Lower(y[1]) != 'n'
    requires forall i :: 0 < i < |y| ==> y[i] != '<'
    ensures StripNoscript(y) == y
  {
    PrefixNowhere(y, "<noscript", 1);
    forall i | 0 <= i < |y| ensures !MatchAt(BlockM("noscript"), y, i) {
      assert "<" + "noscript" == "<noscript";
      assert BlockM("noscript")(y[i..]) == BlockLen("noscript", y[i..]);
    }
    NoMatchIdentity(y, BlockM("noscript"), "<!-- Removed noscript -->");
  }
}
