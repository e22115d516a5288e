/** The parsed HTML document and the CSS selector engine (`scraper`), kept
    abstract: a tree of elements and text nodes, and a selector engine given
    by which selector strings parse and which elements a selector matches. */
module Dom {
  import opened Wrappers

  datatype Node =
    | Element(tag: string, attrs: map<string, string>, children: seq<Node>)
    | Text(content: string)

  /** `Selector::parse(s).is_ok()` and "element `n` matches selector `s`". */
  datatype SelectorEngine = SelectorEngine(valid: string -> bool, matches: (string, Node) -> bool)

  /** Downloading a URL and parsing the body (`client.get(url).send()…text()`
      followed by `Html::parse_document`); an `Err` carries the transport
      error. */
  type Fetcher = string -> Result<Node, string>

  /** Every node strictly below `n`, in document (pre-)order. */
  function Descendants(n: Node): seq<Node>
    decreases n, 1
  {
    match n
    case Text(_) => []
    case Element(_, _, cs) => DescendantsOf(cs)
  }

  function DescendantsOf(cs: seq<Node>): seq<Node>
    decreases cs, 0
  {
    if cs == [] then [] else [cs[0]] + Descendants(cs[0]) + DescendantsOf(cs[1..])
  }

  /** The elements of `ns` that `sel` matches, in their order. */
  function Matching(e: SelectorEngine, sel: string, ns: seq<Node>): (r: seq<Node>)
    ensures |r| <= |ns|
    ensures forall x :: x in r <==> x in ns && x.Element? && e.matches(sel, x)
  {
    if ns == [] then []
    else if ns[0].Element? && e.matches(sel, ns[0]) then [ns[0]] + Matching(e, sel, ns[1..])
    else Matching(e, sel, ns[1..])
  }

  /** Selecting from two runs of nodes selects from the first run, then from
      the second: the selection keeps the nodes' order. */
  lemma {:induction false} MatchingAppend(e: SelectorEngine, sel: string, a: seq<Node>, b: seq<Node>)
    ensures Matching(e, sel, a + b) == Matching(e, sel, a) + Matching(e, sel, b)
  {
    if a != [] {
      assert (a + b)[0] == a[0] && (a + b)[1..] == a[1..] + b;
      MatchingAppend(e, sel, a[1..], b);
      if a[0].Element? && e.matches(sel, a[0]) {
        assert Matching(e, sel, a + b) == [a[0]] + Matching(e, sel, a[1..] + b);
      } else {
        assert Matching(e, sel, a + b) == Matching(e, sel, a[1..] + b);
      }
    } else {
      assert a + b == b;
    }
  }

  /** Each matching node is selected as often as it occurs, and no other. */
  lemma {:induction false} MatchingCount(e: SelectorEngine, sel: string, ns: seq<Node>)
    ensures forall x :: multiset(Matching(e, sel, ns))[x] == if x.Element? && e.matches(sel, x) then multiset(ns)[x] else 0
  {
    if ns != [] {
      MatchingCount(e, sel, ns[1..]);
      assert ns == [ns[0]] + ns[1..];
    }
  }

  /** The first selected node is the first matching node of the run. */
  lemma {:induction false} MatchingHead(e: SelectorEngine, sel: string, ns: seq<Node>) returns (k: nat)
    requires Matching(e, sel, ns) != []
    ensures k < |ns| && ns[k] == Matching(e, sel, ns)[0]
    ensures forall j :: 0 <= j < k ==> !(ns[j].Element? && e.matches(sel, ns[j]))
  {
    if ns[0].Element? && e.matches(sel, ns[0]) {
      k := 0;
    } else {
      var k' := MatchingHead(e, sel, ns[1..]);
      k := k' + 1;
      forall j | 0 <= j < k ensures !(ns[j].Element? && e.matches(sel, ns[j])) {
        if j > 0 { assert ns[j] == ns[1..][j - 1]; }
      }
    }
  }

  lemma FirstMatchIsFirst(e: SelectorEngine, sel: string, ns: seq<Node>)
    requires Matching(e, sel, ns) != []
    ensures exists k :: 0 <= k < |ns| && ns[k] == Matching(e, sel, ns)[0]
                         && forall j :: 0 <= j < k ==> !(ns[j].Element? && e.matches(sel, ns[j]))
  {
    var k := MatchingHead(e, sel, ns);
  }

  /** `n.select(&sel)`: the matching elements below `n`, in document order
      (the element itself is not a candidate). */
  function Select(e: SelectorEngine, sel: string, n: Node): seq<Node> {
    Matching(e, sel, Descendants(n))
  }

  /** `n.select(&sel).next()`. */
  function First(e: SelectorEngine, sel: string, n: Node): (r: Option<Node>)
    ensures r.Some? ==> r.value.Element? && e.matches(sel, r.value) && r.value in Descendants(n)
    ensures r.None? ==> forall x :: x in Descendants(n) && x.Element? ==> !e.matches(sel, x)
  {
    var ms := Select(e, sel, n);
    if ms == [] then None else Some(ms[0])
  }

  /** The element `First` returns is the first match in document order: no
      descendant before it matches. */
  lemma FirstInDocumentOrder(e: SelectorEngine, sel: string, n: Node)
    ensures First(e, sel, n).Some? ==>
              exists k :: 0 <= k < |Descendants(n)| && Descendants(n)[k] == First(e, sel, n).value
                          && forall j :: 0 <= j < k ==> !(Descendants(n)[j].Element? && e.matches(sel, Descendants(n)[j]))
  {
    if First(e, sel, n).Some? {
      FirstMatchIsFirst(e, sel, Descendants(n));
    }
  }

  /** `n.text().collect::<String>()`: the text nodes below `n`, concatenated. */
  function TextOf(n: Node): string
    decreases n, 1
  {
    match n
    case Text(c) => c
    case Element(_, _, cs) => TextOfAll(cs)
  }

  function TextOfAll(cs: seq<Node>): string
    decreases cs, 0
  {
    if cs == [] then [] else TextOf(cs[0]) + TextOfAll(cs[1..])
  }

  /** `n.value().attr(name)`. */
  function Attr(n: Node, name: string): Option<string> {
    if n.Element? && name in n.attrs then Some(n.attrs[name]) else None
  }
}
