/** The first-match HTML extractors used by the post formatting: the
    blockquote of a Quote post, the list of a Link List post, the iframe of
    an Embed post and the anchor of a Link post. Each regex is hand-coded as
    a matcher at a start position plus a leftmost search over positions;
    all four patterns are caseless and dot-all, and caseless means ASCII
    case folding. The matchers are written once over a `Pattern` of opening
    and closing literals and instantiated with each regex's tag names. */
module Extractors {
  import opened Php

  /** Alternative opening literals, all of length `n`, and alternative
      closing literals, all of length `m`; lower-case, matched caselessly. */
  datatype Pattern = Pattern(opens: seq<string>, n: nat, closes: seq<string>, m: nat)

  /** An alternation of literals that all have length `n` > 0. */
  predicate Uniform(ps: seq<string>, n: nat)
  {
    n > 0 && forall j :: 0 <= j < |ps| ==> |ps[j]| == n
  }

  predicate ValidPattern(p: Pattern)
  {
    Uniform(p.opens, p.n) && Uniform(p.closes, p.m)
  }

  /** `<blockquote` ... `</blockquote>`. */
  function QuotePattern(): (p: Pattern)
    ensures ValidPattern(p) && p.n == 11 && p.m == 13
  {
    Pattern(["<blockquote"], 11, ["</blockquote>"], 13)
  }

  /** `<ul` or `<ol` ... `</ul>` or `</ol>`. */
  function ListPattern(): (p: Pattern)
    ensures ValidPattern(p) && p.n == 3 && p.m == 5
  {
    Pattern(["<ul", "<ol"], 3, ["</ul>", "</ol>"], 5)
  }

  /** `<iframe` ... `</iframe>`. */
  function FramePattern(): (p: Pattern)
    ensures ValidPattern(p) && p.n == 7 && p.m == 9
  {
    Pattern(["<iframe"], 7, ["</iframe>"], 9)
  }

  /** `<a` ... `</a>`. */
  function AnchorPattern(): (p: Pattern)
    ensures ValidPattern(p) && p.n == 2 && p.m == 4
  {
    Pattern(["<a"], 2, ["</a>"], 4)
  }

  // ---------------------------------------------------------------------
  // Slices: the scanning helpers give the same answers inside a slice.

  /** Literals of one length `n` fit in the string where they match. */
  lemma {:induction false} MatchesAnyCIFits(s: string, i: int, ps: seq<string>, n: nat)
    requires Uniform(ps, n)
    requires MatchesAnyCIAt(s, i, ps)
    ensures 0 <= i && i + n <= |s|
    decreases |ps|
  {
    if !MatchesCIAt(s, i, ps[0]) {
      MatchesAnyCIFits(s, i, ps[1..], n);
    }
  }

  /** No opening literal starts at or past the end of the string. */
  lemma NoOpenPast(s: string, p: Pattern, from: nat)
    requires ValidPattern(p) && from >= |s|
    ensures forall i :: from <= i ==> !MatchesAnyCIAt(s, i, p.opens)
  {
    forall i | from <= i
      ensures !MatchesAnyCIAt(s, i, p.opens)
    {
      if MatchesAnyCIAt(s, i, p.opens) {
        MatchesAnyCIFits(s, i, p.opens, p.n);
      }
    }
  }

  lemma {:induction false} MatchesAnyCIShift(s: string, lo: int, hi: int, k: int, ps: seq<string>, n: nat)
    requires Uniform(ps, n)
    requires 0 <= lo <= hi <= |s| && 0 <= k && lo + k + n <= hi
    ensures MatchesAnyCIAt(s[lo..hi], k, ps) <==> MatchesAnyCIAt(s, lo + k, ps)
    decreases |ps|
  {
    if |ps| > 0 {
      MatchesCIShift(s, lo, hi, k, ps[0]);
      MatchesAnyCIShift(s, lo, hi, k, ps[1..], n);
    }
  }

  /** A match's opening and closing literals are still there in the slice
      from its start to the end of its close. */
  lemma EndsInSlice(s: string, p: Pattern, i: nat, e: nat, e0: nat)
    requires ValidPattern(p) && e == i + e0
    requires MatchesAnyCIAt(s, i, p.opens) && i + p.n <= e && MatchesAnyCIAt(s, e, p.closes)
    ensures e + p.m <= |s|
    ensures MatchesAnyCIAt(s[i..e + p.m], 0, p.opens)
    ensures MatchesAnyCIAt(s[i..e + p.m], e0, p.closes)
  {
    MatchesAnyCIFits(s, e, p.closes, p.m);
    MatchesAnyCIShift(s, i, e + p.m, 0, p.opens, p.n);
    MatchesAnyCIShift(s, i, e + p.m, e0, p.closes, p.m);
  }

  /** The slice lemmas name the start position twice, as `f` in `s` and as
      `from` in the slice, so that each side matches its scan term as the
      caller writes it. */
  lemma CharFromSlice(s: string, lo: nat, hi: nat, c: char, f: nat, from: nat, p: nat, p0: nat)
    requires f == lo + from && p == lo + p0
    requires lo <= hi <= |s| && f <= p < hi
    requires CharFrom(s, c, f) == Some(p)
    ensures CharFrom(s[lo..hi], c, from) == Some(p0)
  {
    var r := s[lo..hi];
    assert r[p0] == c;
    assert forall k :: from <= k < p0 ==> r[k] == s[lo + k];
  }

  lemma FirstCISlice(s: string, lo: nat, hi: nat, ps: seq<string>, n: nat, f: nat, from: nat, e: nat, e0: nat)
    requires Uniform(ps, n) && f == lo + from && e == lo + e0
    requires lo <= hi <= |s| && f <= e && e + n <= hi
    requires FirstCI(s, ps, f) == Some(e)
    ensures FirstCI(s[lo..hi], ps, from) == Some(e0)
  {
    var r := s[lo..hi];
    MatchesAnyCIShift(s, lo, hi, e0, ps, n);
    forall k | from <= k < e0
      ensures !MatchesAnyCIAt(r, k, ps)
    {
      MatchesAnyCIShift(s, lo, hi, k, ps, n);
    }
  }

  /** In a slice that ends with the last close, that close is still last. */
  lemma LastCISlice(s: string, lo: nat, ps: seq<string>, n: nat, f: nat, from: nat, e: nat)
    requires Uniform(ps, n) && f == lo + from
    requires f <= e && e + n <= |s|
    requires LastCI(s, ps, f) == Some(e)
    ensures LastCI(s[lo..e + n], ps, from) == Some(e - lo)
  {
    var r := s[lo..e + n];
    MatchesAnyCIShift(s, lo, e + n, e - lo, ps, n);
    forall k | e - lo < k
      ensures !MatchesAnyCIAt(r, k, ps)
    {
      if MatchesAnyCIAt(r, k, ps) {
        MatchesAnyCIFits(r, k, ps, n);
      }
    }
  }


  // ---------------------------------------------------------------------
  // get_content_quote: `/(<blockquote[^>]*>.+?<\/blockquote>)/is`.

  /** A match starting at `i`: the opening tag's `>` at `g` is the first one
      after the tag name, and the close at `e` is the first one at least one
      character past it (the lazy `.+?`). */
  ghost predicate QuoteShape(s: string, p: Pattern, i: nat, g: int, e: int)
  {
    && MatchesAnyCIAt(s, i, p.opens)
    && i + p.n <= g < |s| && s[g] == '>'
    && (forall k :: i + p.n <= k < g ==> s[k] != '>')
    && g + 2 <= e && MatchesAnyCIAt(s, e, p.closes)
    && (forall k :: g + 2 <= k < e ==> !MatchesAnyCIAt(s, k, p.closes))
  }

  /** The match starting at `i`, as the positions of its `>` and of its
      close, which lies inside the string. */
  function QuoteAt(s: string, p: Pattern, i: nat): (r: Option<(nat, nat)>)
    requires ValidPattern(p)
    ensures r.Some? ==> i + p.n <= r.value.0 && r.value.0 + 2 <= r.value.1 && r.value.1 + p.m <= |s|
  {
    if !MatchesAnyCIAt(s, i, p.opens) then None
    else match CharFrom(s, '>', i + p.n)
      case None => None
      case Some(g) =>
        match LazyClose(s, p.closes, g)
        case None => None
        case Some(e) =>
          MatchesAnyCIFits(s, e, p.closes, p.m);
          Some((g, e))
  }

  /** Where the lazy `.+?` after the `>` at `g` stops: the first close at
      least one character past `g`. */
  function LazyClose(s: string, ps: seq<string>, g: nat): Option<nat>
    requires AllNonEmpty(ps)
  {
    FirstCI(s, ps, g + 2)
  }

  /** A match the matcher reports has the shape the regex describes. */
  lemma QuoteAtSound(s: string, p: Pattern, i: nat, g: nat, e: nat)
    requires ValidPattern(p) && QuoteAt(s, p, i) == Some((g, e))
    ensures QuoteShape(s, p, i, g, e)
  {
  }

  /** When the matcher reports none, no match of that shape starts at `i`. */
  lemma QuoteAtComplete(s: string, p: Pattern, i: nat)
    requires ValidPattern(p) && QuoteAt(s, p, i).None?
    ensures forall g, e :: !QuoteShape(s, p, i, g, e)
  {
    if MatchesAnyCIAt(s, i, p.opens) && CharFrom(s, '>', i + p.n).Some? {
      var g := CharFrom(s, '>', i + p.n).value;
      assert forall g', e :: QuoteShape(s, p, i, g', e) ==> g' == g;
    }
  }

  /** The leftmost start at or after `from` of a quote match, with its parts. */
  function QuoteSearch(s: string, p: Pattern, from: nat): (r: Option<(nat, nat, nat)>)
    requires ValidPattern(p)
    ensures r.Some? ==> from <= r.value.0 && QuoteAt(s, p, r.value.0) == Some((r.value.1, r.value.2))
    ensures r.Some? ==> forall i :: from <= i < r.value.0 ==> QuoteAt(s, p, i).None?
    ensures r.None? ==> forall i :: from <= i ==> QuoteAt(s, p, i).None?
    decreases |s| - from
  {
    if from >= |s| then NoOpenPast(s, p, from); None
    else match QuoteAt(s, p, from)
      case Some(ge) => Some((from, ge.0, ge.1))
      case None => QuoteSearch(s, p, from + 1)
  }

  /** Some position starts a blockquote match. */
  ghost predicate HasQuote(s: string, p: Pattern)
  {
    exists i: nat, g, e :: QuoteShape(s, p, i, g, e)
  }

  /** `r` is the leftmost quote match of `s`: it opens with the tag name,
      and ends with the first closing tag at least one character past the
      opening tag's `>`. */
  ghost predicate QuoteFound(s: string, p: Pattern, r: string)
  {
    exists i: nat, g, e :: QuoteShape(s, p, i, g, e) && e + p.m <= |s| && r == s[i..e + p.m]
      && forall i', g', e' :: 0 <= i' < i ==> !QuoteShape(s, p, i', g', e')
  }

  /** The first quote match of `s`, or `s` itself when there is none. */
  function FirstQuote(s: string, p: Pattern): string
    requires ValidPattern(p)
  {
    match QuoteSearch(s, p, 0)
    case None => s
    case Some(m) => s[m.0..m.2 + p.m]
  }

  /** `FirstQuote` returns the leftmost match, or `s` when there is none. */
  lemma FirstQuoteSpec(s: string, p: Pattern)
    requires ValidPattern(p)
    ensures !HasQuote(s, p) ==> FirstQuote(s, p) == s
    ensures HasQuote(s, p) ==> QuoteFound(s, p, FirstQuote(s, p)) && |FirstQuote(s, p)| >= p.n + p.m + 2
  {
    match QuoteSearch(s, p, 0)
    case None =>
      forall i: nat, g, e
        ensures !QuoteShape(s, p, i, g, e)
      {
        QuoteAtComplete(s, p, i);
      }
    case Some(m) =>
      FirstQuoteIs(s, p, m);
      QuoteFoundAt(s, p, m);
  }

  lemma FirstQuoteIs(s: string, p: Pattern, m: (nat, nat, nat))
    requires ValidPattern(p) && QuoteSearch(s, p, 0) == Some(m)
    ensures m.2 + p.m <= |s| && FirstQuote(s, p) == s[m.0..m.2 + p.m]
  {
  }

  lemma QuoteFoundAt(s: string, p: Pattern, m: (nat, nat, nat))
    requires ValidPattern(p) && QuoteSearch(s, p, 0) == Some(m)
    ensures m.2 + p.m <= |s| && HasQuote(s, p)
    ensures QuoteFound(s, p, s[m.0..m.2 + p.m]) && |s[m.0..m.2 + p.m]| >= p.n + p.m + 2
  {
    var i, g, e := m.0, m.1, m.2;
    QuoteAtSound(s, p, i, g, e);
    forall i', g', e' | 0 <= i' < i
      ensures !QuoteShape(s, p, i', g', e')
    {
      QuoteAtComplete(s, p, i');
    }
    assert QuoteShape(s, p, i, g, e) && e + p.m <= |s| && s[i..e + p.m] == s[i..e + p.m];
  }

  /** The match found at `i`, cut out, is found again at its start. */
  lemma QuoteAtSlice(s: string, p: Pattern, i: nat, g: nat, e: nat)
    requires ValidPattern(p)
    requires QuoteAt(s, p, i) == Some((g, e))
    ensures e + p.m <= |s| && (e - i) + p.m == |s[i..e + p.m]|
    ensures QuoteAt(s[i..e + p.m], p, 0) == Some((g - i, e - i))
  {
    QuoteAtParts(s, p, i, g, e);
    QuoteScansSlice(s, p, i, g, e, g - i, e - i);
  }

  /** The scans that make a quote match at `i`: the opening literal, the
      first `>` after it at `g`, and the lazy close at `e`. */
  predicate QuoteParts(s: string, p: Pattern, i: nat, g: nat, e: nat)
  {
    && ValidPattern(p) && MatchesAnyCIAt(s, i, p.opens)
    && CharFrom(s, '>', i + p.n) == Some(g)
    && LazyClose(s, p.closes, g) == Some(e)
  }

  /** The scans give the same answers in the slice from `i` to the end of
      the close; `g0` and `e0` are `g` and `e` relative to `i`. */
  lemma QuoteScansSlice(s: string, p: Pattern, i: nat, g: nat, e: nat, g0: nat, e0: nat)
    requires g == i + g0 && e == i + e0
    requires QuoteParts(s, p, i, g, e) && MatchesAnyCIAt(s, e, p.closes)
    requires i + p.n <= g && g + 2 <= e && e + p.m <= |s|
    ensures QuoteAt(s[i..e + p.m], p, 0) == Some((g0, e0))
  {
    EndsInSlice(s, p, i, e, e0);
    CharFromSlice(s, i, e + p.m, '>', i + p.n, 0 + p.n, g, g0);
    LazyCloseSlice(s, i, e + p.m, p.closes, p.m, g, e, g0, e0);
    QuoteAtFromParts(s[i..e + p.m], p, 0, g0, e0);
  }

  lemma LazyCloseSlice(s: string, lo: nat, hi: nat, ps: seq<string>, n: nat, g: nat, e: nat, g0: nat, e0: nat)
    requires Uniform(ps, n) && g == lo + g0 && e == lo + e0
    requires lo <= hi <= |s| && g + 2 <= e && e + n <= hi
    requires LazyClose(s, ps, g) == Some(e)
    ensures LazyClose(s[lo..hi], ps, g0) == Some(e0)
  {
    FirstCISlice(s, lo, hi, ps, n, g + 2, g0 + 2, e, e0);
  }

  lemma QuoteAtParts(s: string, p: Pattern, i: nat, g: nat, e: nat)
    requires ValidPattern(p)
    requires QuoteAt(s, p, i) == Some((g, e))
    ensures QuoteParts(s, p, i, g, e) && MatchesAnyCIAt(s, e, p.closes)
    ensures i + p.n <= g && g + 2 <= e && e + p.m <= |s|
  {
  }

  lemma QuoteAtFromParts(s: string, p: Pattern, i: nat, g: nat, e: nat)
    requires QuoteParts(s, p, i, g, e)
    ensures QuoteAt(s, p, i) == Some((g, e))
  {
  }

  /** Taking the first quote of a first quote changes nothing. */
  lemma FirstQuoteIdempotent(s: string, p: Pattern)
    requires ValidPattern(p)
    ensures FirstQuote(FirstQuote(s, p), p) == FirstQuote(s, p)
  {
    match QuoteSearch(s, p, 0)
    case None =>
    case Some(m) =>
      FirstQuoteIs(s, p, m);
      FirstQuoteAgain(s, p, m);
  }

  /** The first quote, searched for again inside itself, is all of it. */
  lemma FirstQuoteAgain(s: string, p: Pattern, m: (nat, nat, nat))
    requires ValidPattern(p) && QuoteSearch(s, p, 0) == Some(m)
    ensures m.2 + p.m <= |s| && FirstQuote(s[m.0..m.2 + p.m], p) == s[m.0..m.2 + p.m]
  {
    QuoteAtSlice(s, p, m.0, m.1, m.2);
    QuoteAtStart(s[m.0..m.2 + p.m], p, m.1 - m.0, m.2 - m.0);
  }

  /** A string whose quote match starts at 0 and runs to its end is its own
      first quote. */
  lemma QuoteAtStart(r: string, p: Pattern, g: nat, e: nat)
    requires ValidPattern(p) && QuoteAt(r, p, 0) == Some((g, e)) && e + p.m == |r|
    ensures FirstQuote(r, p) == r
  {
    assert QuoteSearch(r, p, 0) == Some((0, g, e));
    assert r[0..e + p.m] == r;
  }

  /** `get_content_quote`: "" for empty content, else the first blockquote
      element, or the content itself when it holds none. */
  function ContentQuote(content: string): (r: string)
    ensures PhpEmpty(content) ==> r == ""
  {
    if PhpEmpty(content) then "" else FirstQuote(content, QuotePattern())
  }

  /** The quote of non-empty content is its leftmost blockquote element,
      from `<blockquote` to the first `</blockquote>` after the opening
      tag's `>`, in any letter case; content without one comes back whole. */
  lemma ContentQuoteSpec(content: string)
    ensures !PhpEmpty(content) && !HasQuote(content, QuotePattern()) ==> ContentQuote(content) == content
    ensures !PhpEmpty(content) && HasQuote(content, QuotePattern())
            ==> QuoteFound(content, QuotePattern(), ContentQuote(content)) && |ContentQuote(content)| >= 26
  {
    if !PhpEmpty(content) {
      FirstQuoteSpec(content, QuotePattern());
    }
  }

  /** Taking the quote of a quote changes nothing. */
  lemma ContentQuoteIdempotent(content: string)
    ensures ContentQuote(ContentQuote(content)) == ContentQuote(content)
  {
    if !PhpEmpty(content) {
      FirstQuoteIdempotent(content, QuotePattern());
    }
  }

  // ---------------------------------------------------------------------
  // The greedy extractors: `/(\<(ul|ol).*\<\/(ul|ol)\>)/is` and
  // `/(\<iframe.*\<\/iframe\>)/is`, an opening literal, anything, then the
  // LAST closing literal.

  /** A match from an opening at `i` to a closing at `e`. */
  ghost predicate GreedyShape(s: string, p: Pattern, i: int, e: int)
  {
    MatchesAnyCIAt(s, i, p.opens) && i + p.n <= e && MatchesAnyCIAt(s, e, p.closes)
  }

  /** The greedy match starting at `i`: the position of the last close,
      which lies inside the string. */
  function GreedyAt(s: string, p: Pattern, i: nat): (r: Option<nat>)
    requires ValidPattern(p)
    ensures r.Some? ==> i + p.n <= r.value && r.value + p.m <= |s|
  {
    if !MatchesAnyCIAt(s, i, p.opens) then None
    else match LastCI(s, p.closes, i + p.n)
      case None => None
      case Some(e) =>
        MatchesAnyCIFits(s, e, p.closes, p.m);
        Some(e)
  }

  /** A reported match has the regex's shape and ends at the last close. */
  lemma GreedyAtSound(s: string, p: Pattern, i: nat, e: nat)
    requires ValidPattern(p) && GreedyAt(s, p, i) == Some(e)
    ensures GreedyShape(s, p, i, e)
    ensures forall e' :: e < e' ==> !MatchesAnyCIAt(s, e', p.closes)
  {
  }

  lemma GreedyAtComplete(s: string, p: Pattern, i: nat)
    requires ValidPattern(p) && GreedyAt(s, p, i).None?
    ensures forall e :: !GreedyShape(s, p, i, e)
  {
  }

  function GreedySearch(s: string, p: Pattern, from: nat): (r: Option<(nat, nat)>)
    requires ValidPattern(p)
    ensures r.Some? ==> from <= r.value.0 && GreedyAt(s, p, r.value.0) == Some(r.value.1)
    ensures r.Some? ==> forall i :: from <= i < r.value.0 ==> GreedyAt(s, p, i).None?
    ensures r.None? ==> forall i :: from <= i ==> GreedyAt(s, p, i).None?
    decreases |s| - from
  {
    if from >= |s| then NoOpenPast(s, p, from); None
    else match GreedyAt(s, p, from)
      case Some(e) => Some((from, e))
      case None => GreedySearch(s, p, from + 1)
  }

  /** Some opening literal has a closing literal after it. */
  ghost predicate HasGreedy(s: string, p: Pattern)
  {
    exists i: nat, e :: GreedyShape(s, p, i, e)
  }

  /** `r` runs from the leftmost opening literal that has a closing literal
      after it to the last closing literal of `s`. */
  ghost predicate GreedyFound(s: string, p: Pattern, r: string)
  {
    exists i: nat, e :: GreedyShape(s, p, i, e) && e + p.m <= |s| && r == s[i..e + p.m]
      && (forall i', e' :: 0 <= i' < i ==> !GreedyShape(s, p, i', e'))
      && (forall e' :: e < e' ==> !MatchesAnyCIAt(s, e', p.closes))
  }

  /** `$matches[1][0]`: the first match, or null when there is none. */
  function GreedyExtract(s: string, p: Pattern): Value
    requires ValidPattern(p)
  {
    match GreedySearch(s, p, 0)
    case None => Null
    case Some(m) => Str(s[m.0..m.1 + p.m])
  }

  /** `GreedyExtract` is null exactly when there is no match, and is the
      leftmost-longest match otherwise. */
  lemma GreedyExtractSpec(s: string, p: Pattern)
    requires ValidPattern(p)
    ensures GreedyExtract(s, p) == Null <==> !HasGreedy(s, p)
    ensures GreedyExtract(s, p) != Null ==> GreedyExtract(s, p).Str? && GreedyFound(s, p, GreedyExtract(s, p).s)
  {
    match GreedySearch(s, p, 0)
    case None =>
      forall i: nat, e
        ensures !GreedyShape(s, p, i, e)
      {
        GreedyAtComplete(s, p, i);
      }
    case Some(m) =>
      GreedyExtractIs(s, p, m);
      GreedyFoundAt(s, p, m);
  }

  lemma GreedyExtractIs(s: string, p: Pattern, m: (nat, nat))
    requires ValidPattern(p) && GreedySearch(s, p, 0) == Some(m)
    ensures m.1 + p.m <= |s| && GreedyExtract(s, p) == Str(s[m.0..m.1 + p.m])
  {
  }

  lemma GreedyFoundAt(s: string, p: Pattern, m: (nat, nat))
    requires ValidPattern(p) && GreedySearch(s, p, 0) == Some(m)
    ensures m.1 + p.m <= |s| && HasGreedy(s, p) && GreedyFound(s, p, s[m.0..m.1 + p.m])
  {
    var i, e := m.0, m.1;
    GreedyAtSound(s, p, i, e);
    forall i', e' | 0 <= i' < i
      ensures !GreedyShape(s, p, i', e')
    {
      GreedyAtComplete(s, p, i');
    }
    assert GreedyShape(s, p, i, e) && e + p.m <= |s| && s[i..e + p.m] == s[i..e + p.m];
  }

  /** A greedy match, searched for again inside itself, is found whole. */
  lemma GreedyIdempotent(s: string, p: Pattern)
    requires ValidPattern(p)
    requires GreedyExtract(s, p).Str?
    ensures GreedyExtract(GreedyExtract(s, p).s, p) == GreedyExtract(s, p)
  {
    var m := GreedySearch(s, p, 0).value;
    GreedyExtractIs(s, p, m);
    GreedyExtractAgain(s, p, m);
  }

  /** The greedy match found at `i`, cut out, is found again at its start. */
  lemma GreedyAtSlice(s: string, p: Pattern, i: nat, e: nat)
    requires ValidPattern(p) && GreedyAt(s, p, i) == Some(e)
    ensures e + p.m <= |s| && (e - i) + p.m == |s[i..e + p.m]|
    ensures GreedyAt(s[i..e + p.m], p, 0) == Some(e - i)
  {
    EndsInSlice(s, p, i, e, e - i);
    LastCISlice(s, i, p.closes, p.m, i + p.n, p.n, e);
  }

  lemma GreedyExtractAgain(s: string, p: Pattern, m: (nat, nat))
    requires ValidPattern(p) && GreedySearch(s, p, 0) == Some(m)
    ensures m.1 + p.m <= |s| && GreedyExtract(s[m.0..m.1 + p.m], p) == Str(s[m.0..m.1 + p.m])
  {
    GreedyAtSlice(s, p, m.0, m.1);
    GreedyAtStart(s[m.0..m.1 + p.m], p, m.1 - m.0);
  }

  lemma GreedyAtStart(r: string, p: Pattern, e: nat)
    requires ValidPattern(p) && GreedyAt(r, p, 0) == Some(e) && e + p.m == |r|
    ensures GreedyExtract(r, p) == Str(r)
  {
    assert GreedySearch(r, p, 0) == Some((0, e));
    assert r[0..e + p.m] == r;
  }

  /** The link-list case: the first `<ul`/`<ol` through the last closing
      list tag of the raw post content, or null. */
  function LinkList(raw: string): (r: Value)
    ensures r.Null? || (r.Str? && |r.s| <= |raw|)
  {
    GreedyExtract(raw, ListPattern())
  }

  lemma LinkListSpec(raw: string)
    ensures LinkList(raw) == Null <==> !HasGreedy(raw, ListPattern())
    ensures LinkList(raw) != Null ==> LinkList(raw).Str? && GreedyFound(raw, ListPattern(), LinkList(raw).s)
  {
    GreedyExtractSpec(raw, ListPattern());
  }

  lemma LinkListIdempotent(raw: string)
    requires LinkList(raw).Str?
    ensures LinkList(LinkList(raw).s) == LinkList(raw)
  {
    GreedyIdempotent(raw, ListPattern());
  }

  /** The embed case's iframe: the first `<iframe` through the last
      `</iframe>` of the raw post content, or null. */
  function Iframe(raw: string): (r: Value)
    ensures r.Null? || (r.Str? && |r.s| <= |raw|)
  {
    GreedyExtract(raw, FramePattern())
  }

  lemma IframeSpec(raw: string)
    ensures Iframe(raw) == Null <==> !HasGreedy(raw, FramePattern())
    ensures Iframe(raw) != Null ==> Iframe(raw).Str? && GreedyFound(raw, FramePattern(), Iframe(raw).s)
  {
    GreedyExtractSpec(raw, FramePattern());
  }

  lemma IframeIdempotent(raw: string)
    requires Iframe(raw).Str?
    ensures Iframe(Iframe(raw).s) == Iframe(raw)
  {
    GreedyIdempotent(raw, FramePattern());
  }

  // ---------------------------------------------------------------------
  // The link case: `/(\<a[^\>]*\>[^\<]*\<\/a\>)/is`.

  /** A match at `i`: the opening literal, the first `>` at `g`, then text
      without `<` up to the first `<` at `l`, which must open the close. */
  ghost predicate AnchorShape(s: string, p: Pattern, i: nat, g: int, l: int)
  {
    && MatchesAnyCIAt(s, i, p.opens)
    && i + p.n <= g < |s| && s[g] == '>' && (forall k :: i + p.n <= k < g ==> s[k] != '>')
    && g < l < |s| && s[l] == '<' && (forall k :: g < k < l ==> s[k] != '<')
    && MatchesAnyCIAt(s, l, p.closes)
  }

  /** The match at `i`, as the positions of its `>` and of its close, which
      lies inside the string. */
  function AnchorAt(s: string, p: Pattern, i: nat): (r: Option<(nat, nat)>)
    requires ValidPattern(p)
    ensures r.Some? ==> i + p.n <= r.value.0 < r.value.1 && r.value.1 + p.m <= |s|
  {
    if !MatchesAnyCIAt(s, i, p.opens) then None
    else match CharFrom(s, '>', i + p.n)
      case None => None
      case Some(g) =>
        match TextEnd(s, g)
        case None => None
        case Some(l) =>
          if MatchesAnyCIAt(s, l, p.closes) then
            MatchesAnyCIFits(s, l, p.closes, p.m);
            Some((g, l))
          else None
  }

  /** Where the anchor text `[^<]*` after the `>` at `g` stops: the first
      `<` past `g`. */
  function TextEnd(s: string, g: nat): Option<nat>
  {
    CharFrom(s, '<', g + 1)
  }

  lemma AnchorAtSound(s: string, p: Pattern, i: nat, g: nat, l: nat)
    requires ValidPattern(p) && AnchorAt(s, p, i) == Some((g, l))
    ensures AnchorShape(s, p, i, g, l)
  {
  }

  lemma AnchorAtComplete(s: string, p: Pattern, i: nat)
    requires ValidPattern(p) && AnchorAt(s, p, i).None?
    ensures forall g, l :: !AnchorShape(s, p, i, g, l)
  {
  }

  function AnchorSearch(s: string, p: Pattern, from: nat): (r: Option<(nat, nat, nat)>)
    requires ValidPattern(p)
    ensures r.Some? ==> from <= r.value.0 && AnchorAt(s, p, r.value.0) == Some((r.value.1, r.value.2))
    ensures r.Some? ==> forall i :: from <= i < r.value.0 ==> AnchorAt(s, p, i).None?
    ensures r.None? ==> forall i :: from <= i ==> AnchorAt(s, p, i).None?
    decreases |s| - from
  {
    if from >= |s| then NoOpenPast(s, p, from); None
    else match AnchorAt(s, p, from)
      case Some(gl) => Some((from, gl.0, gl.1))
      case None => AnchorSearch(s, p, from + 1)
  }

  /** Some position starts an anchor match. */
  ghost predicate HasAnchor(s: string, p: Pattern)
  {
    exists i: nat, g, l :: AnchorShape(s, p, i, g, l)
  }

  /** `r` is the leftmost anchor match of `s`. */
  ghost predicate AnchorFound(s: string, p: Pattern, r: string)
  {
    exists i: nat, g, l :: AnchorShape(s, p, i, g, l) && l + p.m <= |s| && r == s[i..l + p.m]
      && forall i', g', l' :: 0 <= i' < i ==> !AnchorShape(s, p, i', g', l')
  }

  /** The first anchor match, or null. */
  function FirstAnchor(s: string, p: Pattern): Value
    requires ValidPattern(p)
  {
    match AnchorSearch(s, p, 0)
    case None => Null
    case Some(m) => Str(s[m.0..m.2 + p.m])
  }

  /** `FirstAnchor` is null exactly when there is no match, and is the
      leftmost match otherwise. */
  lemma FirstAnchorSpec(s: string, p: Pattern)
    requires ValidPattern(p)
    ensures FirstAnchor(s, p) == Null <==> !HasAnchor(s, p)
    ensures FirstAnchor(s, p) != Null ==> FirstAnchor(s, p).Str? && AnchorFound(s, p, FirstAnchor(s, p).s)
  {
    match AnchorSearch(s, p, 0)
    case None =>
      forall i: nat, g, l
        ensures !AnchorShape(s, p, i, g, l)
      {
        AnchorAtComplete(s, p, i);
      }
    case Some(m) =>
      FirstAnchorIs(s, p, m);
      AnchorFoundAt(s, p, m);
  }

  lemma FirstAnchorIs(s: string, p: Pattern, m: (nat, nat, nat))
    requires ValidPattern(p) && AnchorSearch(s, p, 0) == Some(m)
    ensures m.2 + p.m <= |s| && FirstAnchor(s, p) == Str(s[m.0..m.2 + p.m])
  {
  }

  lemma AnchorFoundAt(s: string, p: Pattern, m: (nat, nat, nat))
    requires ValidPattern(p) && AnchorSearch(s, p, 0) == Some(m)
    ensures m.2 + p.m <= |s| && HasAnchor(s, p) && AnchorFound(s, p, s[m.0..m.2 + p.m])
  {
    var i, g, l := m.0, m.1, m.2;
    AnchorAtSound(s, p, i, g, l);
    forall i', g', l' | 0 <= i' < i
      ensures !AnchorShape(s, p, i', g', l')
    {
      AnchorAtComplete(s, p, i');
    }
    assert AnchorShape(s, p, i, g, l) && l + p.m <= |s| && s[i..l + p.m] == s[i..l + p.m];
  }

  lemma AnchorAtSlice(s: string, p: Pattern, i: nat, g: nat, l: nat)
    requires ValidPattern(p)
    requires AnchorAt(s, p, i) == Some((g, l))
    ensures l + p.m <= |s| && (l - i) + p.m == |s[i..l + p.m]|
    ensures AnchorAt(s[i..l + p.m], p, 0) == Some((g - i, l - i))
  {
    AnchorAtParts(s, p, i, g, l);
    AnchorScansSlice(s, p, i, g, l, g - i, l - i);
  }

  /** The scans that make an anchor match at `i`: the opening literal, the
      first `>` after it at `g`, the first `<` after that at `l`, and a
      closing literal at `l`. */
  predicate AnchorParts(s: string, p: Pattern, i: nat, g: nat, l: nat)
  {
    && ValidPattern(p) && MatchesAnyCIAt(s, i, p.opens)
    && CharFrom(s, '>', i + p.n) == Some(g)
    && TextEnd(s, g) == Some(l)
    && MatchesAnyCIAt(s, l, p.closes)
  }

  /** The scans give the same answers in the slice from `i` to the end of
      the close; `g0` and `l0` are `g` and `l` relative to `i`. */
  lemma AnchorScansSlice(s: string, p: Pattern, i: nat, g: nat, l: nat, g0: nat, l0: nat)
    requires g == i + g0 && l == i + l0
    requires AnchorParts(s, p, i, g, l)
    requires i + p.n <= g < l && l + p.m <= |s|
    ensures AnchorAt(s[i..l + p.m], p, 0) == Some((g0, l0))
  {
    EndsInSlice(s, p, i, l, l0);
    CharFromSlice(s, i, l + p.m, '>', i + p.n, 0 + p.n, g, g0);
    TextEndSlice(s, i, l + p.m, g, l, g0, l0);
    AnchorAtFromParts(s[i..l + p.m], p, 0, g0, l0);
  }

  lemma TextEndSlice(s: string, lo: nat, hi: nat, g: nat, l: nat, g0: nat, l0: nat)
    requires g == lo + g0 && l == lo + l0
    requires lo <= hi <= |s| && g < l < hi
    requires TextEnd(s, g) == Some(l)
    ensures TextEnd(s[lo..hi], g0) == Some(l0)
  {
    CharFromSlice(s, lo, hi, '<', g + 1, g0 + 1, l, l0);
  }

  lemma AnchorAtParts(s: string, p: Pattern, i: nat, g: nat, l: nat)
    requires ValidPattern(p)
    requires AnchorAt(s, p, i) == Some((g, l))
    ensures AnchorParts(s, p, i, g, l)
    ensures i + p.n <= g < l && l + p.m <= |s|
  {
  }

  lemma AnchorAtFromParts(s: string, p: Pattern, i: nat, g: nat, l: nat)
    requires AnchorParts(s, p, i, g, l)
    ensures AnchorAt(s, p, i) == Some((g, l))
  {
  }

  /** An anchor match, searched for again inside itself, is found whole. */
  lemma FirstAnchorIdempotent(s: string, p: Pattern)
    requires ValidPattern(p)
    requires FirstAnchor(s, p).Str?
    ensures FirstAnchor(FirstAnchor(s, p).s, p) == FirstAnchor(s, p)
  {
    var m := AnchorSearch(s, p, 0).value;
    FirstAnchorIs(s, p, m);
    FirstAnchorAgain(s, p, m);
  }

  lemma FirstAnchorAgain(s: string, p: Pattern, m: (nat, nat, nat))
    requires ValidPattern(p) && AnchorSearch(s, p, 0) == Some(m)
    ensures m.2 + p.m <= |s| && FirstAnchor(s[m.0..m.2 + p.m], p) == Str(s[m.0..m.2 + p.m])
  {
    AnchorAtSlice(s, p, m.0, m.1, m.2);
    AnchorAtStart(s[m.0..m.2 + p.m], p, m.1 - m.0, m.2 - m.0);
  }

  lemma AnchorAtStart(r: string, p: Pattern, g: nat, l: nat)
    requires ValidPattern(p)
    requires AnchorAt(r, p, 0) == Some((g, l))
    requires l + p.m == |r|
    ensures FirstAnchor(r, p) == Str(r)
  {
    assert AnchorSearch(r, p, 0) == Some((0, g, l));
    assert r[0..l + p.m] == r;
  }

  /** The link case: the first complete anchor element of the raw content
      whose text holds no tag, or null. */
  function Link(raw: string): (r: Value)
    ensures r.Null? || (r.Str? && |r.s| <= |raw|)
  {
    FirstAnchor(raw, AnchorPattern())
  }

  lemma LinkSpec(raw: string)
    ensures Link(raw) == Null <==> !HasAnchor(raw, AnchorPattern())
    ensures Link(raw) != Null ==> Link(raw).Str? && AnchorFound(raw, AnchorPattern(), Link(raw).s)
  {
    FirstAnchorSpec(raw, AnchorPattern());
  }

  lemma LinkIdempotent(raw: string)
    requires Link(raw).Str?
    ensures Link(Link(raw).s) == Link(raw)
  {
    FirstAnchorIdempotent(raw, AnchorPattern());
  }
}
