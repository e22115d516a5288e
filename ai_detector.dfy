/** Selector suggestions for an element the user picked in the page
    (`ai-detector.ts`): a fixed set of heuristics on the element's tag,
    attributes and selector, a stand-in parser for the answer of a remote
    model, and the fall-backs of the two detection entry points.

    The requests to the remote services are outside the model: each entry
    point takes whether its request came back usable. Confidences are
    written in hundredths (`70` for `0.7`). */
module AiDetector {
  import opened Wrappers
  import opened Strings
  import opened Patterns

  /** The element as the page reports it. */
  datatype ElementInfo = ElementInfo(tagName: string, text: string, attributes: map<string, string>, selector: string)

  /** `type: 'selector'` proposes a selector, `type: 'extract'` a field to
      extract; `caption` is the suggestion's `label`. */
  datatype Kind = SelectorKind | ExtractKind

  datatype Suggestion = Suggestion(kind: Kind, caption: string, selector: string, attribute: Option<string>, confidence: nat)

  const ListContainer := "List Container"
  const ExtractUrl := "Extract URL"
  const ExtractImage := "Extract Image"
  const ExtractTitle := "Extract Title"
  const ExtractText := "Extract Text"
  const DefaultContainer := "ul, ol, div"
  const ChildSeparator := " > "

  // ---------------------------------------------------------------------
  // Splitting a selector at ` > `

  /** `s.split(sep)`: the pieces between the leftmost non-overlapping
      occurrences of `sep`. */
  function Split(s: string, sep: string): (r: seq<string>)
    requires |sep| > 0
    ensures |r| > 0
    ensures !Occurs(r[|r| - 1], sep, false)
    decreases |s|
  {
    match FindFirst(s, Lit(sep, false))
    case None =>
      assert !Occurs(s, sep, false) by {
        forall i | 0 <= i <= |s| ensures !StartsWith(s[i..], sep, false) {
          if i < |s| {
            assert !MatchAt(Lit(sep, false), s, i);
          }
        }
      }
      [s]
    case Some(i) => [s[..i]] + Split(s[i + |sep|..], sep)
  }

  /** `parts.join(sep)`. */
  function Join(parts: seq<string>, sep: string): string
    decreases |parts|
  {
    if parts == [] then []
    else if |parts| == 1 then parts[0]
    else parts[0] + sep + Join(parts[1..], sep)
  }

  /** Joining the pieces of a split gives the string back. */
  lemma {:induction false} JoinSplit(s: string, sep: string)
    requires |sep| > 0
    ensures Join(Split(s, sep), sep) == s
    decreases |s|
  {
    match FindFirst(s, Lit(sep, false))
    case None =>
    case Some(i) =>
      var rest := s[i + |sep|..];
      JoinSplit(rest, sep);
      assert MatchAt(Lit(sep, false), s, i);
      assert s[i..][..|sep|] == sep;
      assert s[i..i + |sep|] == sep;
      assert s == s[..i] + sep + rest;
  }

  /** Joining all pieces but the last, then the separator and the last. */
  lemma {:induction false} JoinInit(parts: seq<string>, sep: string)
    requires |parts| >= 2
    ensures Join(parts, sep) == Join(parts[..|parts| - 1], sep) + sep + parts[|parts| - 1]
    decreases |parts|
  {
    if |parts| > 2 {
      JoinInit(parts[1..], sep);
      assert parts[1..][..|parts| - 2] == parts[..|parts| - 1][1..];
    } else {
      assert parts[..1] == [parts[0]];
    }
  }

  /** Line 98 without its fall-back: the selector without its last
      ` > ` step. */
  function ParentSelector(selector: string): string {
    var parts := Split(selector, ChildSeparator);
    Join(parts[..|parts| - 1], ChildSeparator)
  }

  /** The parent selector and the last step make up the selector, and the
      last step holds no ` > `; with no ` > ` at all the parent is empty. */
  lemma ParentSelectorSplits(selector: string)
    ensures exists last :: selector == (if ParentSelector(selector) == [] && !Occurs(selector, ChildSeparator, false)
      then last else ParentSelector(selector) + ChildSeparator + last) && !Occurs(last, ChildSeparator, false)
    ensures !Occurs(selector, ChildSeparator, false) ==> ParentSelector(selector) == []
  {
    var parts := Split(selector, ChildSeparator);
    var last := parts[|parts| - 1];
    JoinSplit(selector, ChildSeparator);
    if |parts| >= 2 {
      JoinInit(parts, ChildSeparator);
      assert selector == ParentSelector(selector) + ChildSeparator + last;
      assert Occurs(selector, ChildSeparator, false) by {
        var k := |ParentSelector(selector)|;
        assert selector[k..][..3] == ChildSeparator;
      }
    } else {
      assert parts[..0] == [];
    }
  }

  /** `… || 'ul, ol, div'`: an empty parent selector falls back to the usual
      list containers. */
  function ContainerSelector(selector: string): (r: string)
    ensures r != []
    ensures ParentSelector(selector) != [] ==> r == ParentSelector(selector)
    ensures ParentSelector(selector) == [] ==> r == DefaultContainer
  {
    var parent := ParentSelector(selector);
    if parent == [] then DefaultContainer else parent
  }

  // ---------------------------------------------------------------------
  // The heuristics

  /** A tag named `h1` to `h6`, in lower case. */
  predicate IsHeading(tag: string) {
    |tag| == 2 && tag[0] == 'h' && '1' <= tag[1] <= '6'
  }

  /** An attribute present with a non-empty value (a truthy lookup). */
  predicate HasAttribute(e: ElementInfo, name: string) {
    name in e.attributes && e.attributes[name] != []
  }

  predicate LooksLikeListItem(e: ElementInfo) {
    LowerStr(e.tagName) == "li" || ("class" in e.attributes && Includes(e.attributes["class"], "item"))
  }

  predicate LooksLikeLink(e: ElementInfo) {
    LowerStr(e.tagName) == "a" || HasAttribute(e, "href")
  }

  predicate LooksLikeImage(e: ElementInfo) {
    LowerStr(e.tagName) == "img" || HasAttribute(e, "src")
  }

  predicate LooksLikeTitle(e: ElementInfo) {
    IsHeading(LowerStr(e.tagName))
  }

  function ExtractSuggestion(caption: string, attribute: string, e: ElementInfo, confidence: nat): Suggestion {
    Suggestion(ExtractKind, caption, e.selector, Some(attribute), confidence)
  }

  /** The list-container suggestion, when the element looks like an item. */
  function ListPart(e: ElementInfo): seq<Suggestion> {
    if LooksLikeListItem(e) then [Suggestion(SelectorKind, ListContainer, ContainerSelector(e.selector), None, 80)] else []
  }

  function LinkPart(e: ElementInfo): seq<Suggestion> {
    if LooksLikeLink(e) then [ExtractSuggestion(ExtractUrl, "href", e, 90)] else []
  }

  function ImagePart(e: ElementInfo): seq<Suggestion> {
    if LooksLikeImage(e) then [ExtractSuggestion(ExtractImage, "src", e, 90)] else []
  }

  function TitlePart(e: ElementInfo): seq<Suggestion> {
    if LooksLikeTitle(e) then [ExtractSuggestion(ExtractTitle, "text", e, 85)] else []
  }

  /** What `heuristicDetection` returns: a suggestion for each test the
      element passes, in a fixed order, and text extraction last. */
  function Heuristics(e: ElementInfo): (r: seq<Suggestion>)
    ensures 1 <= |r| <= 5
  {
    ListPart(e) + LinkPart(e) + ImagePart(e) + TitlePart(e) + [ExtractSuggestion(ExtractText, "text", e, 70)]
  }

  /** Lines 91-160: the suggestions pushed one after the other. */
  method HeuristicDetection(e: ElementInfo) returns (suggestions: seq<Suggestion>)
    ensures suggestions == Heuristics(e)
  {
    suggestions := [];
    var tagName := LowerStr(e.tagName);
    if tagName == "li" || ("class" in e.attributes && Includes(e.attributes["class"], "item")) {
      var parts := Split(e.selector, ChildSeparator);
      var parentSelector := Join(parts[..|parts| - 1], ChildSeparator);
      if parentSelector == [] {
        parentSelector := DefaultContainer;
      }
      suggestions := suggestions + [Suggestion(SelectorKind, ListContainer, parentSelector, None, 80)];
    }
    assert suggestions == ListPart(e);
    if tagName == "a" || ("href" in e.attributes && e.attributes["href"] != []) {
      suggestions := suggestions + [Suggestion(ExtractKind, ExtractUrl, e.selector, Some("href"), 90)];
    }
    assert suggestions == ListPart(e) + LinkPart(e);
    if tagName == "img" || ("src" in e.attributes && e.attributes["src"] != []) {
      suggestions := suggestions + [Suggestion(ExtractKind, ExtractImage, e.selector, Some("src"), 90)];
    }
    assert suggestions == ListPart(e) + LinkPart(e) + ImagePart(e);
    if |tagName| == 2 && tagName[0] == 'h' && '1' <= tagName[1] <= '6' {
      suggestions := suggestions + [Suggestion(ExtractKind, ExtractTitle, e.selector, Some("text"), 85)];
    }
    assert suggestions == ListPart(e) + LinkPart(e) + ImagePart(e) + TitlePart(e);
    suggestions := suggestions + [Suggestion(ExtractKind, ExtractText, e.selector, Some("text"), 70)];
  }

  /** The position of a caption in the fixed order of the heuristics. */
  function Rank(caption: string): nat {
    if caption == ListContainer then 0
    else if caption == ExtractUrl then 1
    else if caption == ExtractImage then 2
    else if caption == ExtractTitle then 3
    else 4
  }

  /** The result is never empty, ends with text extraction of the element's
      selector at 0.7, and lists its suggestions in the fixed order. */
  lemma HeuristicsShape(e: ElementInfo)
    ensures var r := Heuristics(e);
      |r| > 0 && r[|r| - 1] == Suggestion(ExtractKind, ExtractText, e.selector, Some("text"), 70)
      && forall i, j :: 0 <= i < j < |r| ==> Rank(r[i].caption) < Rank(r[j].caption)
  {
    var r := Heuristics(e);
    forall i, j | 0 <= i < j < |r| ensures Rank(r[i].caption) < Rank(r[j].caption) {
      LabelsInOrder(e, i, j);
    }
  }

  lemma LabelsInOrder(e: ElementInfo, i: nat, j: nat)
    requires i < j < |Heuristics(e)|
    ensures Rank(Heuristics(e)[i].caption) < Rank(Heuristics(e)[j].caption)
  {
    RanksByPosition(e);
  }

  /** The rank of each entry follows from the lengths of the pieces. */
  lemma RanksByPosition(e: ElementInfo)
    ensures forall k :: 0 <= k < |Heuristics(e)| ==>
      Rank(Heuristics(e)[k].caption) == RankAt(|ListPart(e)|, |LinkPart(e)|, |ImagePart(e)|, |TitlePart(e)|, k)
  {
    var a := ListPart(e);
    var b := LinkPart(e);
    var c := ImagePart(e);
    var d := TitlePart(e);
    var t := [ExtractSuggestion(ExtractText, "text", e, 70)];
    var r := a + b + c + d + t;
    assert Heuristics(e) == r;
    RankValues();
    forall k | 0 <= k < |r| ensures Rank(r[k].caption) == RankAt(|a|, |b|, |c|, |d|, k) {
      if k < |a| {
        assert r[k] == a[k];
      } else if k < |a| + |b| {
        assert r[k] == b[k - |a|];
      } else if k < |a| + |b| + |c| {
        assert r[k] == c[k - |a| - |b|];
      } else if k < |a| + |b| + |c| + |d| {
        assert r[k] == d[k - |a| - |b| - |c|];
      } else {
        assert r[k] == t[0];
      }
    }
  }

  /** The rank of the entry at `k` of the concatenation, from the lengths
      of its pieces. */
  function RankAt(a: nat, b: nat, c: nat, d: nat, k: nat): nat {
    if k < a then 0 else if k < a + b then 1 else if k < a + b + c then 2 else if k < a + b + c + d then 3 else 4
  }

  lemma RankValues()
    ensures Rank(ListContainer) == 0 && Rank(ExtractUrl) == 1 && Rank(ExtractImage) == 2
    ensures Rank(ExtractTitle) == 3 && Rank(ExtractText) == 4
  {
  }


  /** Each suggestion appears exactly when its test passes. */
  lemma HeuristicsTests(e: ElementInfo)
    ensures LooksLikeListItem(e) <==> Heuristics(e)[0].caption == ListContainer
    ensures LooksLikeListItem(e) ==>
      Heuristics(e)[0] == Suggestion(SelectorKind, ListContainer, ContainerSelector(e.selector), None, 80)
    ensures LooksLikeLink(e) <==> ExtractSuggestion(ExtractUrl, "href", e, 90) in Heuristics(e)
    ensures LooksLikeImage(e) <==> ExtractSuggestion(ExtractImage, "src", e, 90) in Heuristics(e)
    ensures LooksLikeTitle(e) <==> ExtractSuggestion(ExtractTitle, "text", e, 85) in Heuristics(e)
    ensures forall s :: s in Heuristics(e) && s.caption == ExtractUrl ==> s == ExtractSuggestion(ExtractUrl, "href", e, 90)
  {
    HeadTest(e);
    PartsPresent(e);
  }

  lemma HeadTest(e: ElementInfo)
    ensures LooksLikeListItem(e) <==> Heuristics(e)[0].caption == ListContainer
    ensures LooksLikeListItem(e) ==>
      Heuristics(e)[0] == Suggestion(SelectorKind, ListContainer, ContainerSelector(e.selector), None, 80)
  {
    RanksByPosition(e);
    RankValues();
    if LooksLikeListItem(e) {
      assert Heuristics(e)[0] == ListPart(e)[0];
    }
  }

  lemma PartsPresent(e: ElementInfo)
    ensures LooksLikeLink(e) <==> ExtractSuggestion(ExtractUrl, "href", e, 90) in Heuristics(e)
    ensures LooksLikeImage(e) <==> ExtractSuggestion(ExtractImage, "src", e, 90) in Heuristics(e)
    ensures LooksLikeTitle(e) <==> ExtractSuggestion(ExtractTitle, "text", e, 85) in Heuristics(e)
    ensures forall s :: s in Heuristics(e) && s.caption == ExtractUrl ==> s == ExtractSuggestion(ExtractUrl, "href", e, 90)
  {
    var t := [ExtractSuggestion(ExtractText, "text", e, 70)];
    var r := ListPart(e) + LinkPart(e) + ImagePart(e) + TitlePart(e) + t;
    assert Heuristics(e) == r;
    assert forall s :: s in r <==> s in ListPart(e) || s in LinkPart(e) || s in ImagePart(e) || s in TitlePart(e) || s in t;
    RankValues();
  }

  /** The tag test ignores case: `LI`, `Li` and `li` are the same. */
  lemma HeuristicsIgnoreTagCase(e: ElementInfo, tag: string)
    requires LowerStr(tag) == LowerStr(e.tagName)
    ensures Heuristics(e.(tagName := tag)) == Heuristics(e)
  {
  }

  // ---------------------------------------------------------------------
  // The stand-in parser of a remote answer

  /** The run of decimal digits at the start of `s`. */
  function DigitRun(s: string): (r: nat)
    ensures r <= |s|
    ensures forall k :: 0 <= k < r ==> '0' <= s[k] <= '9'
    ensures r == |s| || !('0' <= s[r] <= '9')
  {
    if s != [] && '0' <= s[0] <= '9' then 1 + DigitRun(s[1..]) else 0
  }

  const NthOfType := ":nth-of-type("

  /** `:nth-of-type\([0-9]+\)`. */
  function NthOfTypeLen(s: string): (r: nat)
    ensures r <= |s|
    ensures r > 0 ==> StartsWith(s, NthOfType, false) && s[r - 1] == ')' && r > |NthOfType| + 1
  {
    if StartsWith(s, NthOfType, false) then
      var d := DigitRun(s[13..]);
      assert s[13..][..d] == s[13..13 + d];
      if d > 0 && 13 + d < |s| && s[13 + d] == ')' then 13 + d + 1 else 0
    else 0
  }

  function NthOfTypeM(): Matcher {
    s => NthOfTypeLen(s)
  }

  function StripPositions(selector: string): string {
    ReplaceAll(selector, NthOfTypeM(), "")
  }

  /** Removing the positional steps only shortens the selector, and a
      selector without one is kept. */
  lemma {:induction false} StripPositionsShortens(selector: string)
    ensures |StripPositions(selector)| <= |selector|
    ensures (forall i :: 0 <= i < |selector| ==> !MatchAt(NthOfTypeM(), selector, i)) ==>
      StripPositions(selector) == selector
    decreases |selector|
  {
    if selector != [] {
      var n := NthOfTypeM()(selector);
      if 0 < n <= |selector| {
        StripPositionsShortens(selector[n..]);
        assert MatchAt(NthOfTypeM(), selector, 0) by { assert selector[0..] == selector; }
      } else {
        StripPositionsShortens(selector[1..]);
        if forall i :: 0 <= i < |selector| ==> !MatchAt(NthOfTypeM(), selector, i) {
          NoMatchIdentity(selector, NthOfTypeM(), "");
        }
      }
    }
  }

  /** One global replace does not remove every positional step: removing
      the inner one of `:nth-of-type(:nth-of-type(1)1)` joins the rest into a
      new one. */
  lemma StripPositionsOnce(selector: string)
    requires selector == ":nth-of-type(:nth-of-type(1)1)"
    ensures StripPositions(selector) == ":nth-of-type(1)"
    ensures MatchAt(NthOfTypeM(), StripPositions(selector), 0)
  {
    NoNthBefore(selector);
    assert selector[..13] == NthOfType;
    InnerStepRemoved(selector[13..]);
    StepsRejoin(selector);
    var r := ":nth-of-type(1)";
    assert NthOfType + "1)" == r;
    NthAtOne(r);
    assert r[0..] == r;
  }

  /** What is left of a step around a removed one. */
  lemma StepsRejoin(x: string)
    requires |x| >= 13 && x[..13] == NthOfType
    requires forall i :: 0 <= i < 13 ==> !MatchAt(NthOfTypeM(), x, i)
    requires StripPositions(x[13..]) == "1)"
    ensures StripPositions(x) == NthOfType + "1)"
  {
    ReplaceAllSkip(x, NthOfTypeM(), "", 13);
  }

  /** The inner step goes and `1)` is left. */
  lemma InnerStepRemoved(t: string)
    requires t == ":nth-of-type(1)1)"
    ensures StripPositions(t) == "1)"
  {
    NthAtOne(t);
    assert NthOfTypeM()(t) == 15;
    assert t[15..] == "1)";
    var rest := "1)";
    forall i | 0 <= i < 2 ensures !MatchAt(NthOfTypeM(), rest, i) {
      assert NthOfTypeM()(rest[i..]) == NthOfTypeLen(rest[i..]);
      assert rest[i..][0] != ':';
    }
    NoMatchIdentity(rest, NthOfTypeM(), "");
  }

  /** No step starts before position 13 of a selector that starts a step
      whose digits are missing: `:` comes where the digits should. */
  lemma NoNthBefore(selector: string)
    requires selector == ":nth-of-type(:nth-of-type(1)1)"
    ensures forall i :: 0 <= i < 13 ==> !MatchAt(NthOfTypeM(), selector, i)
  {
    assert |selector| > 13 && selector[13] == ':';
    assert forall k :: 1 <= k < 13 ==> selector[k] != ':';
    NoStepBefore(selector);
  }

  lemma NoStepBefore(x: string)
    requires |x| > 13 && x[13] == ':'
    requires forall k :: 1 <= k < 13 ==> x[k] != ':'
    ensures forall i :: 0 <= i < 13 ==> !MatchAt(NthOfTypeM(), x, i)
  {
    forall i | 0 <= i < 13 ensures !MatchAt(NthOfTypeM(), x, i) {
      assert NthOfTypeM()(x[i..]) == NthOfTypeLen(x[i..]);
      if i == 0 {
        assert DigitRun(x[13..]) == 0 by { assert x[13..][0] == ':'; }
        assert x[0..] == x;
      } else {
        assert !StartsWith(x[i..], NthOfType, false) by {
          assert x[i..][0] != ':';
        }
      }
    }
  }

  /** A step `:nth-of-type(1)` at the front of `s` is matched whole. */
  lemma NthAtOne(s: string)
    requires |s| >= 15 && s[..15] == ":nth-of-type(1)"
    ensures NthOfTypeLen(s) == 15
  {
    assert StartsWith(s, NthOfType, false);
    assert DigitRun(s[13..]) == 1 by {
      assert s[13..][0] == '1';
      assert s[13..][1..][0] == ')';
    }
  }

  /** The lower-cased tag mentions `li`, `div`, `article` or `section`
      anywhere (the pattern is not anchored). */
  predicate MentionsContainer(tag: string) {
    var t := LowerStr(tag);
    Includes(t, "li") || Includes(t, "div") || Includes(t, "article") || Includes(t, "section")
  }

  /** What `parseAIResponse` returns; the answer itself is not read. */
  function ParsedAnswer(e: ElementInfo): (r: seq<Suggestion>)
    ensures |r| <= 1 && (r != [] <==> MentionsContainer(e.tagName))
    ensures r != [] ==> r[0].kind == SelectorKind && r[0].caption == ListContainer && r[0].confidence == 70
    ensures r != [] ==> |r[0].selector| <= |e.selector|
  {
    StripPositionsShortens(e.selector);
    if MentionsContainer(e.tagName) then [Suggestion(SelectorKind, ListContainer, StripPositions(e.selector), None, 70)] else []
  }

  /** Lines 70-89. */
  method ParseAIResponse(e: ElementInfo) returns (suggestions: seq<Suggestion>)
    ensures suggestions == ParsedAnswer(e)
  {
    suggestions := [];
    var t := LowerStr(e.tagName);
    if Includes(t, "li") || Includes(t, "div") || Includes(t, "article") || Includes(t, "section") {
      suggestions := suggestions + [Suggestion(SelectorKind, ListContainer, ReplaceAll(e.selector, NthOfTypeM(), ""), None, 70)];
    }
  }

  // ---------------------------------------------------------------------
  // The entry points

  /** `detectElementsWithAI`: the parsed answer when the request came back
      usable and the parser found something, the heuristics otherwise. */
  function DetectElementsWithAI(e: ElementInfo, answered: bool): (r: seq<Suggestion>)
    ensures |r| > 0
  {
    var parsed := if answered then ParsedAnswer(e) else [];
    HeuristicsShape(e);
    if parsed == [] then Heuristics(e) else parsed
  }

  /** `detectWithOpenAI`: without a key, with a failed request and with an
      answer alike, the heuristics (its answer parser falls back to them). */
  function DetectWithOpenAI(e: ElementInfo, apiKey: string, answered: bool): (r: seq<Suggestion>)
    ensures r == Heuristics(e)
  {
    if apiKey == [] then Heuristics(e)
    else if answered then ParseOpenAIResponse(e)
    else Heuristics(e)
  }

  function ParseOpenAIResponse(e: ElementInfo): seq<Suggestion> {
    Heuristics(e)
  }

  /** The remote models never change the outcome of `detectWithOpenAI`, and
      `detectElementsWithAI` falls back to the heuristics unless the element
      mentions a container. */
  lemma DetectionFallbacks(e: ElementInfo, apiKey: string, answered: bool)
    ensures DetectWithOpenAI(e, apiKey, answered) == Heuristics(e)
    ensures !answered || !MentionsContainer(e.tagName) ==> DetectElementsWithAI(e, answered) == Heuristics(e)
    ensures answered && MentionsContainer(e.tagName) ==> DetectElementsWithAI(e, answered) == ParsedAnswer(e)
  {
  }
}
