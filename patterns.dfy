/** The JavaScript `String.prototype.replace` semantics the HTML rewriting
    relies on. Every regular expression of the source is anchored-free and has
    no look-behind, so it is modelled by a `Matcher`: the length of the match
    that starts at the beginning of its argument, or 0 when there is none
    (none of the source's patterns can match the empty string). A global
    replace then scans left to right, replacing each leftmost match and
    resuming after it, exactly as `replace(/…/g, …)` does. */
module Patterns {
  import opened Wrappers
  import opened Strings

  type Matcher = string -> nat

  /** A match of `m` starts at position `i` of `s`. */
  predicate MatchAt(m: Matcher, s: string, i: nat)
    requires i <= |s|
  {
    0 < m(s[i..]) <= |s| - i
  }

  /** `s.replace(/re/g, r)`. */
  function ReplaceAll(s: string, m: Matcher, r: string): string
    decreases |s|
  {
    if s == [] then []
    else if 0 < m(s) <= |s| then r + ReplaceAll(s[m(s)..], m, r)
    else [s[0]] + ReplaceAll(s[1..], m, r)
  }

  /** Position of the leftmost match at or after `i`. */
  function FindFrom(s: string, m: Matcher, i: nat): (r: Option<nat>)
    requires i <= |s|
    decreases |s| - i
    ensures r.Some? ==> i <= r.value < |s| && MatchAt(m, s, r.value)
    ensures r.Some? ==> forall j :: i <= j < r.value ==> !MatchAt(m, s, j)
    ensures r.None? ==> forall j :: i <= j < |s| ==> !MatchAt(m, s, j)
  {
    if i == |s| then None
    else if MatchAt(m, s, i) then Some(i)
    else FindFrom(s, m, i + 1)
  }

  /** Position of the leftmost match of `m` in `s` (`s.search(re)`). */
  function FindFirst(s: string, m: Matcher): Option<nat> {
    FindFrom(s, m, 0)
  }

  /** The text a replacement template stands for, as the `GetSubstitution`
      operation of ECMAScript expands it: `$$` is a dollar sign, `$&` the
      matched text, `` $` `` the text before the match, `$'` the text after
      it. Under `group` the pattern has one capture group spanning the whole
      match, so `$1` and `$01` are the matched text as well; without it they
      stay as written, as does every other `$`. */
  function Expand(t: string, matched: string, before: string, after: string, group: bool): string
    decreases |t|
  {
    if t == [] then []
    else if t[0] == '$' && |t| >= 3 && t[1] == '0' && t[2] == '1' && group then
      matched + Expand(t[3..], matched, before, after, group)
    else if t[0] == '$' && |t| >= 2 && (t[1] == '$' || t[1] == '&' || t[1] == '`' || t[1] == '\'' || (t[1] == '1' && group)) then
      (if t[1] == '$' then "$" else if t[1] == '`' then before else if t[1] == '\'' then after else matched)
      + Expand(t[2..], matched, before, after, group)
    else [t[0]] + Expand(t[1..], matched, before, after, group)
  }

  /** A template without a dollar sign stands for itself. */
  lemma {:induction false} ExpandPlain(t: string, matched: string, before: string, after: string, group: bool)
    requires '$' !in t
    ensures Expand(t, matched, before, after, group) == t
    decreases |t|
  {
    if t != [] {
      assert t[0] != '$';
      assert '$' !in t[1..] by {
        forall k | 0 <= k < |t[1..]| ensures t[1..][k] != '$' { assert t[1..][k] == t[k + 1]; }
      }
      ExpandPlain(t[1..], matched, before, after, group);
    }
  }

  /** A dollar-free head of a template is copied as it is. */
  lemma {:induction false} ExpandConcat(a: string, b: string, matched: string, before: string, after: string, group: bool)
    requires '$' !in a
    ensures Expand(a + b, matched, before, after, group) == a + Expand(b, matched, before, after, group)
    decreases |a|
  {
    if a != [] {
      assert a[0] != '$' && (a + b)[0] == a[0];
      assert (a + b)[1..] == a[1..] + b;
      assert Expand(a + b, matched, before, after, group)
          == [a[0]] + Expand(a[1..] + b, matched, before, after, group);
      assert a == [a[0]] + a[1..];
      assert '$' !in a[1..] by {
        forall k | 0 <= k < |a[1..]| ensures a[1..][k] != '$' { assert a[1..][k] == a[k + 1]; }
      }
      ExpandConcat(a[1..], b, matched, before, after, group);
    } else {
      assert a + b == b;
    }
  }

  /** `s.replace(re, t)` without the `g` flag: only the leftmost match is
      replaced, by the expansion of the template `t`. */
  function ReplaceFirst(s: string, m: Matcher, t: string, group: bool): string
  {
    match FindFirst(s, m)
    case None => s
    case Some(i) =>
      var n := m(s[i..]);
      s[..i] + Expand(t, s[i..i + n], s[..i], s[i + n..], group) + s[i + n..]
  }

  /** `s.replace(re, f)` with a replacer function: the leftmost match is
      replaced by `f` of the matched text, and no template is expanded. */
  function ReplaceFirstBy(s: string, m: Matcher, f: string -> string): string
  {
    match FindFirst(s, m)
    case None => s
    case Some(i) =>
      var n := m(s[i..]);
      s[..i] + f(s[i..i + n]) + s[i + n..]
  }

  /** `s.replace(re, '$1' + x)` with a dollar-free `x` puts `x` right after
      the leftmost match and changes nothing else. */
  lemma AppendAfterMatch(s: string, m: Matcher, x: string)
    requires '$' !in x
    ensures match FindFirst(s, m)
      case None => ReplaceFirst(s, m, "$1" + x, true) == s
      case Some(i) => ReplaceFirst(s, m, "$1" + x, true) == s[..i + m(s[i..])] + x + s[i + m(s[i..])..]
  {
    match FindFirst(s, m)
    case None =>
    case Some(i) =>
      var n := m(s[i..]);
      ExpandGroup(x, s[i..i + n], s[..i], s[i + n..]);
      assert s[..i] + s[i..i + n] == s[..i + n];
  }

  lemma ExpandGroup(x: string, matched: string, before: string, after: string)
    requires '$' !in x
    ensures Expand("$1" + x, matched, before, after, true) == matched + x
  {
    var t := "$1" + x;
    assert t[0] == '$' && t[1] == '1' && t[2..] == x;
    assert Expand(t, matched, before, after, true) == matched + Expand(x, matched, before, after, true);
    ExpandPlain(x, matched, before, after, true);
  }

  /** The leftmost match of a literal is the literal itself. */
  lemma LiteralFound(s: string, lit: string, i: nat)
    requires FindFirst(s, Lit(lit, false)) == Some(i)
    ensures i + |lit| <= |s| && Lit(lit, false)(s[i..]) == |lit| && s[i..i + |lit|] == lit
  {
    assert MatchAt(Lit(lit, false), s, i);
    assert Lit(lit, false)(s[i..]) == LitLen(lit, false, s[i..]);
    StartsWithExact(s[i..], lit);
    assert s[i..][..|lit|] == s[i..i + |lit|];
  }

  /** Replacing the leftmost occurrence of a literal by a dollar-free text. */
  lemma ReplaceLiteralAt(s: string, lit: string, t: string, i: nat)
    requires '$' !in t
    requires FindFirst(s, Lit(lit, false)) == Some(i)
    ensures i + |lit| <= |s| && s[i..i + |lit|] == lit
    ensures ReplaceFirst(s, Lit(lit, false), t, false) == s[..i] + t + s[i + |lit|..]
  {
    LiteralFound(s, lit, i);
    var n := |lit|;
    ExpandPlain(t, s[i..i + n], s[..i], s[i + n..], false);
  }

  /** `s.replace(lit, x + lit)` with dollar-free `x` and `lit` puts `x`
      right before the first occurrence of `lit`. */
  lemma InsertBeforeLiteral(s: string, lit: string, x: string)
    requires '$' !in x && '$' !in lit
    ensures match FindFirst(s, Lit(lit, false))
      case None => ReplaceFirst(s, Lit(lit, false), x + lit, false) == s
      case Some(i) => ReplaceFirst(s, Lit(lit, false), x + lit, false) == s[..i] + x + s[i..]
  {
    match FindFirst(s, Lit(lit, false))
    case None =>
    case Some(i) =>
      assert '$' !in x + lit;
      ReplaceLiteralAt(s, lit, x + lit, i);
      assert s[i..] == lit + s[i + |lit|..];
      assert s[..i] + (x + lit) + s[i + |lit|..] == s[..i] + x + s[i..];
  }

  /** `s.replace(lit, lit + x)` with dollar-free `x` and `lit` puts `x`
      right after the first occurrence of `lit`. */
  lemma InsertAfterLiteral(s: string, lit: string, x: string)
    requires '$' !in x && '$' !in lit
    ensures match FindFirst(s, Lit(lit, false))
      case None => ReplaceFirst(s, Lit(lit, false), lit + x, false) == s
      case Some(i) => ReplaceFirst(s, Lit(lit, false), lit + x, false) == s[..i + |lit|] + x + s[i + |lit|..]
  {
    match FindFirst(s, Lit(lit, false))
    case None =>
    case Some(i) =>
      assert '$' !in lit + x;
      ReplaceLiteralAt(s, lit, lit + x, i);
      assert s[..i + |lit|] == s[..i] + lit;
      assert s[..i] + (lit + x) + s[i + |lit|..] == s[..i + |lit|] + x + s[i + |lit|..];
  }

  // ---------------------------------------------------------------------
  // Literal patterns

  /** Length of `lit` when `s` starts with it, 0 otherwise. */
  function LitLen(lit: string, ci: bool, s: string): nat {
    if |lit| > 0 && StartsWith(s, lit, ci) then |lit| else 0
  }

  /** The pattern that matches `lit` literally (case-insensitively under `ci`). */
  function Lit(lit: string, ci: bool): Matcher {
    s => LitLen(lit, ci, s)
  }

  /** `s.includes(lit)`. */
  predicate Includes(s: string, lit: string) {
    FindFirst(s, Lit(lit, false)).Some?
  }

  /** `q` occurs somewhere in `s`. */
  predicate Occurs(s: string, q: string, ci: bool) {
    exists i :: 0 <= i <= |s| && StartsWith(s[i..], q, ci)
  }

  /** `a` and `b` agree on their common length. */
  predicate Compat(a: string, b: string, ci: bool) {
    forall k :: 0 <= k < |a| && k < |b| ==> EqC(ci, a[k], b[k])
  }

  lemma EqCTrans(ci: bool, a: char, b: char, c: char)
    requires EqC(ci, a, b) && EqC(ci, b, c)
    ensures EqC(ci, a, c)
  {
  }

  /** A case-sensitive occurrence is also a case-insensitive one. */
  lemma OccursExactIsOccursCI(s: string, q: string)
    requires Occurs(s, q, false)
    ensures Occurs(s, q, true)
  {
    var i :| 0 <= i <= |s| && StartsWith(s[i..], q, false);
    assert StartsWith(s[i..], q, true);
  }

  /** For a pattern without ASCII letters, case-insensitive and exact
      occurrences coincide. */
  lemma OccursCIOfLetterless(s: string, q: string)
    requires forall k :: 0 <= k < |q| ==> !('A' <= q[k] <= 'Z') && !('a' <= q[k] <= 'z')
    requires Occurs(s, q, true)
    ensures Occurs(s, q, false)
  {
    var i :| 0 <= i <= |s| && StartsWith(s[i..], q, true);
    forall k | 0 <= k < |q| ensures s[i..][k] == q[k] {
      assert Lower(s[i..][k]) == Lower(q[k]);
    }
    assert StartsWith(s[i..], q, false);
  }

  /** What the output of a literal replace-all starting with `w` says about
      the input: either the input itself starts with `w`, or a replaced
      occurrence of `p` begins inside `w` and `r` agrees with the rest of `w`. */
  lemma StartOfReplace(s: string, p: string, r: string, ci: bool, w: string)
    requires |p| > 0
    requires StartsWith(ReplaceAll(s, Lit(p, ci), r), w, ci)
    ensures StartsWith(s, w, ci)
      || exists m :: 0 <= m < |w| && m <= |s|
           && (forall k :: 0 <= k < m ==> EqC(ci, s[k], w[k]))
           && StartsWith(s[m..], p, ci) && Compat(w[m..], r, ci)
  {
    StartOfReplaceM(s, Lit(p, ci), r, ci, w);
  }

  /** The same for any pattern: either the input starts with `w`, or a
      match begins inside `w` and its replacement agrees with the rest. */
  lemma {:induction false} StartOfReplaceM(s: string, m: Matcher, r: string, ci: bool, w: string)
    requires StartsWith(ReplaceAll(s, m, r), w, ci)
    ensures StartsWith(s, w, ci)
      || exists j :: 0 <= j < |w| && j < |s| && MatchAt(m, s, j)
           && (forall k :: 0 <= k < j ==> EqC(ci, s[k], w[k]))
           && Compat(w[j..], r, ci)
    decreases |s|
  {
    var o := ReplaceAll(s, m, r);
    if w == [] {
    } else if s == [] {
    } else if 0 < m(s) <= |s| {
      assert o == r + ReplaceAll(s[m(s)..], m, r);
      assert s[0..] == s;
      assert MatchAt(m, s, 0);
      assert Compat(w[0..], r, ci);
    } else {
      var o' := ReplaceAll(s[1..], m, r);
      assert o == [s[0]] + o';
      assert StartsWith(o', w[1..], ci) by {
        forall k | 0 <= k < |w[1..]| ensures EqC(ci, o'[k], w[1..][k]) {
          assert o'[k] == o[k + 1];
        }
      }
      StartOfReplaceM(s[1..], m, r, ci, w[1..]);
      if StartsWith(s[1..], w[1..], ci) {
        forall k | 0 <= k < |w| ensures EqC(ci, s[k], w[k]) {
          if k > 0 { assert s[1..][k - 1] == s[k]; }
        }
      } else {
        var j :| 0 <= j < |w[1..]| && j < |s[1..]| && MatchAt(m, s[1..], j)
          && (forall k :: 0 <= k < j ==> EqC(ci, s[1..][k], w[1..][k]))
          && Compat(w[1..][j..], r, ci);
        assert s[1..][j..] == s[j + 1..];
        assert w[1..][j..] == w[j + 1..];
        assert MatchAt(m, s, j + 1);
        forall k | 0 <= k < j + 1 ensures EqC(ci, s[k], w[k]) {
          if k > 0 { assert s[1..][k - 1] == s[k]; }
        }
      }
    }
  }

  /** No occurrence in `s` means no occurrence in any suffix of `s`. */
  lemma NoOccurrenceInSuffix(s: string, q: string, ci: bool, n: nat)
    requires n <= |s| && !Occurs(s, q, ci)
    ensures !Occurs(s[n..], q, ci)
  {
    forall i | 0 <= i <= |s[n..]| ensures !StartsWith(s[n..][i..], q, ci) {
      assert s[n..][i..] == s[n + i..];
    }
  }

  /** A literal replace-all leaves no occurrence of `q` behind, provided
      (1) `q` is the replaced pattern itself or did not occur in the input,
      (2) no occurrence of `q` can begin inside the replacement `r`, and
      (3) an occurrence of `q` that runs into a replacement would have run
          into the replaced text `p` in the input just as well. */
  lemma {:induction false} NoOccurrenceAfterReplace(s: string, p: string, r: string, q: string, ci: bool)
    requires |p| > 0 && |q| > 0
    requires q == p || !Occurs(s, q, ci)
    requires forall t :: 0 <= t < |r| ==> !Compat(r[t..], q, ci)
    requires forall m :: 1 <= m < |q| && Compat(q[m..], r, ci) ==> q != p && StartsWith(p, q[m..], ci)
    ensures !Occurs(ReplaceAll(s, Lit(p, ci), r), q, ci)
    decreases |s|
  {
    var o := ReplaceAll(s, Lit(p, ci), r);
    if s == [] {
      assert o == [];
    } else if 0 < Lit(p, ci)(s) <= |s| {
      var rest := s[|p|..];
      var o' := ReplaceAll(rest, Lit(p, ci), r);
      assert o == r + o';
      if q != p {
        NoOccurrenceInSuffix(s, q, ci, |p|);
      }
      NoOccurrenceAfterReplace(rest, p, r, q, ci);
      NoOccurrenceBehindReplacement(r, o', q, ci);
    } else {
      var o' := ReplaceAll(s[1..], Lit(p, ci), r);
      assert o == [s[0]] + o';
      if q != p {
        NoOccurrenceInSuffix(s, q, ci, 1);
      }
      NoOccurrenceAfterReplace(s[1..], p, r, q, ci);
      assert s[0..] == s;
      FrontOccurrence(s, p, r, q, ci);
      NoOccurrenceBehindChar(s[0], o', q, ci);
    }
  }

  /** A replacement that no occurrence of `q` can start inside, followed by
      a text without `q`, holds no `q`. */
  lemma NoOccurrenceBehindReplacement(r: string, o: string, q: string, ci: bool)
    requires forall t :: 0 <= t < |r| ==> !Compat(r[t..], q, ci)
    requires !Occurs(o, q, ci)
    ensures !Occurs(r + o, q, ci)
  {
    var w := r + o;
    forall i | 0 <= i <= |w| ensures !StartsWith(w[i..], q, ci) {
      if i < |r| {
        assert !Compat(r[i..], q, ci);
        var k :| 0 <= k < |r[i..]| && k < |q| && !EqC(ci, r[i..][k], q[k]);
        assert r[i..][k] == w[i..][k];
      } else {
        assert w[i..] == o[i - |r|..];
      }
    }
  }

  /** One character that does not start `q`, followed by a text without
      `q`, holds no `q`. */
  lemma NoOccurrenceBehindChar(c: char, o: string, q: string, ci: bool)
    requires !Occurs(o, q, ci)
    requires !StartsWith([c] + o, q, ci)
    ensures !Occurs([c] + o, q, ci)
  {
    var w := [c] + o;
    forall i | 0 <= i <= |w| ensures !StartsWith(w[i..], q, ci) {
      if i > 0 {
        assert w[i..] == o[i - 1..];
      } else {
        assert w[0..] == w;
      }
    }
  }

  /** The front case of `NoOccurrenceAfterReplace`: when `p` does not start
      the input but `q` starts the output, `q` already started the input. */
  lemma FrontOccurrence(s: string, p: string, r: string, q: string, ci: bool)
    requires |p| > 0 && |q| > 0 && s != []
    requires !(0 < Lit(p, ci)(s) <= |s|)
    requires forall m :: 1 <= m < |q| && Compat(q[m..], r, ci) ==> q != p && StartsWith(p, q[m..], ci)
    ensures StartsWith(ReplaceAll(s, Lit(p, ci), r), q, ci) ==> StartsWith(s, q, ci)
  {
    if StartsWith(ReplaceAll(s, Lit(p, ci), r), q, ci) {
      var o := ReplaceAll(s, Lit(p, ci), r);
      var o' := ReplaceAll(s[1..], Lit(p, ci), r);
      assert o == [s[0]] + o';
      var w := q[1..];
      assert StartsWith(o', w, ci) by {
        forall k | 0 <= k < |w| ensures EqC(ci, o'[k], w[k]) {
          assert o'[k] == o[k + 1];
        }
      }
      assert EqC(ci, s[0], q[0]);
      StartOfReplace(s[1..], p, r, ci, w);
      if StartsWith(s[1..], w, ci) {
        forall k | 0 <= k < |q| ensures EqC(ci, s[k], q[k]) {
          if k > 0 { assert s[1..][k - 1] == s[k]; }
        }
      } else {
        var m :| 0 <= m < |w| && m <= |s[1..]|
          && (forall k :: 0 <= k < m ==> EqC(ci, s[1..][k], w[k]))
          && StartsWith(s[1..][m..], p, ci) && Compat(w[m..], r, ci);
        assert w[m..] == q[m + 1..];
        assert StartsWith(p, w[m..], ci);
        Glue(s, q, p, m, ci);
      }
    }
  }

  /** Gluing the pieces of `FrontOccurrence`: `s` agrees with `q` up to
      position `m`, and from there `s` continues with `p`, which itself
      starts with the rest of `q`. */
  lemma Glue(s: string, q: string, p: string, m: nat, ci: bool)
    requires s != [] && q != [] && EqC(ci, s[0], q[0])
    requires m < |q| - 1 && m <= |s| - 1
    requires forall k :: 0 <= k < m ==> EqC(ci, s[1..][k], q[1..][k])
    requires StartsWith(s[1..][m..], p, ci) && StartsWith(p, q[1..][m..], ci)
    ensures StartsWith(s, q, ci)
  {
    forall k | 0 <= k < |q| ensures EqC(ci, s[k], q[k]) {
      if k == 0 {
      } else if k <= m {
        assert s[1..][k - 1] == s[k];
        assert q[1..][k - 1] == q[k];
      } else {
        var j := k - 1 - m;
        assert s[1..][m..][j] == s[k];
        assert q[1..][m..][j] == q[k];
        assert EqC(ci, s[k], p[j]);
        EqCTrans(ci, s[k], p[j], q[k]);
      }
    }
  }
  /** A replace-all with no match anywhere leaves its input unchanged. */
  lemma {:induction false} NoMatchIdentity(s: string, m: Matcher, r: string)
    requires forall i :: 0 <= i < |s| ==> !MatchAt(m, s, i)
    ensures ReplaceAll(s, m, r) == s
    decreases |s|
  {
    if s != [] {
      assert s[0..] == s;
      assert !MatchAt(m, s, 0);
      forall i | 0 <= i < |s[1..]| ensures !MatchAt(m, s[1..], i) {
        assert s[1..][i..] == s[i + 1..];
        assert !MatchAt(m, s, i + 1);
      }
      NoMatchIdentity(s[1..], m, r);
    }
  }

  /** A replace-all with no match before position `j` keeps `s[..j]`. */
  lemma {:induction false} ReplaceAllSkip(s: string, m: Matcher, r: string, j: nat)
    requires j <= |s|
    requires forall i :: 0 <= i < j ==> !MatchAt(m, s, i)
    ensures ReplaceAll(s, m, r) == s[..j] + ReplaceAll(s[j..], m, r)
    decreases j
  {
    if j > 0 {
      assert s[0..] == s;
      assert !MatchAt(m, s, 0);
      forall i | 0 <= i < j - 1 ensures !MatchAt(m, s[1..], i) {
        assert s[1..][i..] == s[i + 1..];
        assert !MatchAt(m, s, i + 1);
      }
      ReplaceAllSkip(s[1..], m, r, j - 1);
      assert s[1..][j - 1..] == s[j..];
      assert [s[0]] + s[1..][..j - 1] == s[..j];
    }
  }

  /** No occurrence of `q` can begin inside `r`, and no proper suffix of
      `q` can run into `r`. */
  ghost predicate Inert(r: string, q: string, ci: bool) {
    (forall t :: 0 <= t < |r| ==> !Compat(r[t..], q, ci))
    && (forall j :: 1 <= j < |q| ==> !Compat(q[j..], r, ci))
  }

  /** Any replace-all leaves no occurrence of `q` behind when `q` did not
      occur in the input, cannot begin inside the replacement `r`, and no
      proper suffix of `q` can run into `r` (so `r` is not empty). */
  lemma {:induction false} NoNewOccurrence(s: string, m: Matcher, r: string, q: string, ci: bool)
    requires |q| > 0 && !Occurs(s, q, ci)
    requires Inert(r, q, ci)
    ensures !Occurs(ReplaceAll(s, m, r), q, ci)
    decreases |s|
  {
    var o := ReplaceAll(s, m, r);
    if s == [] {
      assert o == [];
    } else if 0 < m(s) <= |s| {
      var o' := ReplaceAll(s[m(s)..], m, r);
      assert o == r + o';
      NoOccurrenceInSuffix(s, q, ci, m(s));
      NoNewOccurrence(s[m(s)..], m, r, q, ci);
      NoOccurrenceBehindReplacement(r, o', q, ci);
    } else {
      var o' := ReplaceAll(s[1..], m, r);
      assert o == [s[0]] + o';
      NoOccurrenceInSuffix(s, q, ci, 1);
      NoNewOccurrence(s[1..], m, r, q, ci);
      assert s[0..] == s;
      assert !StartsWith(s, q, ci);
      FrontOccurrenceM(s, m, r, q, ci);
      NoOccurrenceBehindChar(s[0], o', q, ci);
    }
  }

  /** The front case of `NoNewOccurrence`. */
  lemma FrontOccurrenceM(s: string, m: Matcher, r: string, q: string, ci: bool)
    requires |q| > 0 && s != [] && !(0 < m(s) <= |s|)
    requires forall j :: 1 <= j < |q| ==> !Compat(q[j..], r, ci)
    requires !StartsWith(s, q, ci)
    ensures !StartsWith(ReplaceAll(s, m, r), q, ci)
  {
    var o' := ReplaceAll(s[1..], m, r);
    assert ReplaceAll(s, m, r) == [s[0]] + o';
    assert s == [s[0]] + s[1..];
    var w := q[1..];
    ConsStartsWith(s[0], o', q, ci);
    ConsStartsWith(s[0], s[1..], q, ci);
    forall j | 0 <= j < |w| ensures !Compat(w[j..], r, ci) {
      assert w[j..] == q[j + 1..];
    }
    StartOfReplaceImplies(s[1..], m, r, ci, w);
  }

  /** A text that starts with `c` starts with `q` exactly when `c` is the
      first character of `q` and the rest of the text starts with the rest. */
  lemma ConsStartsWith(c: char, t: string, q: string, ci: bool)
    requires |q| > 0
    ensures StartsWith([c] + t, q, ci) <==> EqC(ci, c, q[0]) && StartsWith(t, q[1..], ci)
  {
    var u := [c] + t;
    if EqC(ci, c, q[0]) && StartsWith(t, q[1..], ci) {
      forall k | 0 <= k < |q| ensures EqC(ci, u[k], q[k]) {
        if k > 0 { assert u[k] == t[k - 1] && q[k] == q[1..][k - 1]; }
      }
    }
    if StartsWith(u, q, ci) {
      forall k | 0 <= k < |q[1..]| ensures EqC(ci, t[k], q[1..][k]) {
        assert u[k + 1] == t[k];
      }
    }
  }

  /** `StartOfReplaceM` as an implication. */
  lemma StartOfReplaceImplies(s: string, m: Matcher, r: string, ci: bool, w: string)
    ensures StartsWith(ReplaceAll(s, m, r), w, ci) ==>
      StartsWith(s, w, ci)
      || exists j :: 0 <= j < |w| && j < |s| && MatchAt(m, s, j)
           && (forall k :: 0 <= k < j ==> EqC(ci, s[k], w[k]))
           && Compat(w[j..], r, ci)
  {
    if StartsWith(ReplaceAll(s, m, r), w, ci) {
      StartOfReplaceM(s, m, r, ci, w);
    }
  }

  /** Deleting every match never lengthens a text, and it keeps the length
      only when there was nothing to delete. */
  lemma {:induction false} DeletionShrinks(s: string, m: Matcher)
    ensures |ReplaceAll(s, m, "")| <= |s|
    ensures |ReplaceAll(s, m, "")| == |s| ==> forall i :: 0 <= i < |s| ==> !MatchAt(m, s, i)
    decreases |s|
  {
    if s != [] {
      assert s[0..] == s;
      if 0 < m(s) <= |s| {
        DeletionShrinks(s[m(s)..], m);
      } else {
        DeletionShrinks(s[1..], m);
        if |ReplaceAll(s, m, "")| == |s| {
          forall i | 0 < i < |s| ensures !MatchAt(m, s, i) {
            assert s[1..][i - 1..] == s[i..];
            assert !MatchAt(m, s[1..], i - 1);
          }
        }
      }
    }
  }
}
