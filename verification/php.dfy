/** PHP value semantics and the PHP/PCRE string primitives the plugin relies on:
    empty(), trim(), explode()/join(), str_replace() with an empty replacement,
    PCRE character classes and ASCII case-insensitive comparison. */
module Php {

  datatype Option<+T> = None | Some(value: T)

  /** The PHP values that flow through the formatting filter. A post style
      lookup yields a string or `false`; a failed `preg_match_all` index yields
      `null`; the chat renderer yields `array()` when there is no transcript. */
  datatype Value = False | Null | Str(s: string) | EmptyArray

  /** PHP's `empty()` on a string: the empty string and "0" are empty. */
  predicate PhpEmpty(s: string)
  {
    s == "" || s == "0"
  }

  /** PHP truthiness of a value. */
  predicate Truthy(v: Value)
  {
    v.Str? && !PhpEmpty(v.s)
  }

  /** Characters stripped by PHP's `trim()` with its default character list. */
  predicate IsTrimChar(c: char)
  {
    c == ' ' || c == '\t' || c == '\n' || c == '\r' || c == '\0' || c == '\U{000B}'
  }

  /** PCRE `\s` in non-UTF mode: space, tab, LF, VT, FF and CR. */
  predicate IsPcreSpace(c: char)
  {
    c == ' ' || c == '\t' || c == '\n' || c == '\U{000B}' || c == '\U{000C}' || c == '\r'
  }

  /** `preg_match('#[\r\n\t ]#', s)`. */
  predicate HasWs(s: string)
  {
    exists i :: 0 <= i < |s| && (s[i] == '\r' || s[i] == '\n' || s[i] == '\t' || s[i] == ' ')
  }

  /** `preg_match('#\S#', s)`. */
  predicate HasNonSpace(s: string)
  {
    exists i :: 0 <= i < |s| && !IsPcreSpace(s[i])
  }

  function TrimLeft(s: string): (r: string)
    ensures |r| <= |s| && r == s[|s| - |r|..]
    ensures r == [] || !IsTrimChar(r[0])
    ensures forall i :: 0 <= i < |s| - |r| ==> IsTrimChar(s[i])
  {
    if |s| > 0 && IsTrimChar(s[0]) then TrimLeft(s[1..]) else s
  }

  function TrimRight(s: string): (r: string)
    ensures |r| <= |s| && r == s[..|r|]
    ensures r == [] || !IsTrimChar(r[|r| - 1])
    ensures forall i :: |r| <= i < |s| ==> IsTrimChar(s[i])
  {
    if |s| > 0 && IsTrimChar(s[|s| - 1]) then TrimRight(s[..|s| - 1]) else s
  }

  /** PHP `trim()`: the longest infix without stripped characters at either end. */
  function Trim(s: string): (r: string)
  {
    TrimRight(TrimLeft(s))
  }

  lemma TrimIdempotent(s: string)
    ensures Trim(Trim(s)) == Trim(s)
  {
    var t := Trim(s);
    assert t == [] || (!IsTrimChar(t[0]) && !IsTrimChar(t[|t| - 1]));
  }

  /** A trimmed string neither starts nor ends with a stripped character. */
  lemma TrimEnds(s: string)
    ensures Trim(s) == [] || (!IsTrimChar(Trim(s)[0]) && !IsTrimChar(Trim(s)[|Trim(s)| - 1]))
  {
    var l := TrimLeft(s);
    var r := TrimRight(l);
    if r != [] {
      assert r[0] == l[0];
    }
  }

  /** A string that neither starts nor ends with a stripped character is its own trim. */
  lemma TrimClean(s: string)
    requires |s| > 0 ==> !IsTrimChar(s[0]) && !IsTrimChar(s[|s| - 1])
    ensures Trim(s) == s
  {
  }

  /** A leading stripped character makes no difference to the trim. */
  lemma TrimDropsLeading(c: char, s: string)
    requires IsTrimChar(c)
    ensures Trim([c] + s) == Trim(s)
  {
    assert ([c] + s)[1..] == s;
  }

  /** `s` consists of stripped characters only. */
  predicate AllTrim(s: string)
  {
    |s| == 0 || (IsTrimChar(s[0]) && AllTrim(s[1..]))
  }

  lemma {:induction false} AllTrimChars(s: string)
    requires AllTrim(s)
    ensures forall k :: 0 <= k < |s| ==> IsTrimChar(s[k])
  {
    if |s| > 0 {
      AllTrimChars(s[1..]);
      assert forall k :: 1 <= k < |s| ==> s[k] == s[1..][k - 1];
    }
  }

  /** A string of stripped characters only trims to nothing. */
  lemma TrimBlank(s: string)
    requires AllTrim(s)
    ensures Trim(s) == ""
  {
    AllTrimChars(s);
  }

  /** All-whitespace padding around a clean core is trimmed away. */
  lemma TrimPadded(pre: string, core: string, post: string)
    requires AllTrim(pre) && AllTrim(post)
    requires |core| > 0 && !IsTrimChar(core[0]) && !IsTrimChar(core[|core| - 1])
    ensures Trim(pre + core + post) == core
  {
    TrimLeftOfPadded(pre, core, post);
    TrimRightOfPadded(core, post);
  }

  lemma TrimLeftOfPadded(pre: string, core: string, post: string)
    requires AllTrim(pre) && |core| > 0 && !IsTrimChar(core[0])
    ensures TrimLeft(pre + core + post) == core + post
  {
    AllTrimChars(pre);
    assert pre + core + post == pre + (core + post);
    TrimLeftPadded(pre, core + post);
  }

  lemma TrimRightOfPadded(core: string, post: string)
    requires AllTrim(post) && |core| > 0 && !IsTrimChar(core[|core| - 1])
    ensures TrimRight(core + post) == core
  {
    AllTrimChars(post);
    TrimRightPadded(core, post);
  }

  lemma {:induction false} TrimLeftPadded(pre: string, s: string)
    requires forall k :: 0 <= k < |pre| ==> IsTrimChar(pre[k])
    requires |s| > 0 && !IsTrimChar(s[0])
    ensures TrimLeft(pre + s) == s
    decreases |pre|
  {
    if |pre| == 0 {
      assert pre + s == s;
    } else {
      assert (pre + s)[1..] == pre[1..] + s;
      TrimLeftPadded(pre[1..], s);
    }
  }

  lemma {:induction false} TrimRightPadded(s: string, post: string)
    requires forall k :: 0 <= k < |post| ==> IsTrimChar(post[k])
    requires |s| > 0 && !IsTrimChar(s[|s| - 1])
    ensures TrimRight(s + post) == s
    decreases |post|
  {
    if |post| == 0 {
      assert s + post == s;
    } else {
      var t := s + post;
      assert t[..|t| - 1] == s + post[..|post| - 1];
      TrimRightPadded(s, post[..|post| - 1]);
    }
  }

  /** `join(sep, parts)` / `implode`. */
  function Join(sep: string, parts: seq<string>): string
  {
    if |parts| == 0 then ""
    else if |parts| == 1 then parts[0]
    else parts[0] + sep + Join(sep, parts[1..])
  }

  /** First index of `c` in `s`. */
  function IndexOf(s: string, c: char): (r: Option<nat>)
    ensures r.Some? ==> r.value < |s| && s[r.value] == c && c !in s[..r.value]
    ensures r.None? ==> c !in s
  {
    if |s| == 0 then None
    else if s[0] == c then Some(0)
    else match IndexOf(s[1..], c)
      case None => None
      case Some(k) => Some(k + 1)
  }

  /** `explode(sep, s)` for a one-character separator. */
  function Explode(s: string, sep: char): (r: seq<string>)
    ensures |r| >= 1
    ensures forall k :: 0 <= k < |r| ==> sep !in r[k]
    decreases |s|
  {
    match IndexOf(s, sep)
    case None => [s]
    case Some(k) => [s[..k]] + Explode(s[k + 1..], sep)
  }

  /** `implode(sep, explode(sep, s)) == s`: explode loses nothing. */
  lemma {:induction false} ExplodeJoin(s: string, sep: char)
    ensures Join([sep], Explode(s, sep)) == s
    decreases |s|
  {
    match IndexOf(s, sep)
    case None =>
    case Some(k) =>
      var rest := Explode(s[k + 1..], sep);
      ExplodeJoin(s[k + 1..], sep);
      assert Explode(s, sep) == [s[..k]] + rest;
      assert s == s[..k] + [sep] + s[k + 1..];
  }

  /** Parts that do not contain the separator are recovered by exploding their join. */
  lemma {:induction false} JoinExplode(parts: seq<string>, sep: char)
    requires |parts| >= 1
    requires forall k :: 0 <= k < |parts| ==> sep !in parts[k]
    ensures Explode(Join([sep], parts), sep) == parts
    decreases |parts|
  {
    var s := Join([sep], parts);
    if |parts| == 1 {
      assert s == parts[0];
    } else {
      var h := parts[0];
      var t := Join([sep], parts[1..]);
      assert s == h + [sep] + t;
      IndexAfterFree(h, sep, t);
      assert s[|h| + 1..] == t;
      assert s[..|h|] == h;
      JoinExplode(parts[1..], sep);
    }
  }

  lemma IndexAfterFree(h: string, sep: char, t: string)
    requires sep !in h
    ensures IndexOf(h + [sep] + t, sep) == Some(|h|)
  {
    var s := h + [sep] + t;
    assert s[|h|] == sep;
  }

  /** `s` has `p` at position `i` (case-sensitive). */
  predicate OccursAt(s: string, i: int, p: string)
  {
    0 <= i && i + |p| <= |s| && s[i..i + |p|] == p
  }

  /** `s` contains `p` somewhere. */
  predicate Contains(s: string, p: string)
  {
    exists i :: 0 <= i <= |s| - |p| && OccursAt(s, i, p)
  }

  /** `str_replace(needle, '', s)`: removes every non-overlapping occurrence
      of `needle`, scanning left to right; an empty needle changes nothing. */
  function StrRemove(s: string, needle: string): (r: string)
    ensures |r| <= |s|
    decreases |s|
  {
    if |needle| == 0 || |s| < |needle| then s
    else if s[..|needle|] == needle then StrRemove(s[|needle|..], needle)
    else [s[0]] + StrRemove(s[1..], needle)
  }

  /** A string without occurrences of the needle is left unchanged, and one
      with an occurrence strictly shrinks: `StrRemove` is the identity exactly
      on needle-free strings. */
  lemma {:induction false} StrRemoveIdentity(s: string, needle: string)
    requires |needle| > 0
    ensures StrRemove(s, needle) == s <==> !Contains(s, needle)
    decreases |s|
  {
    if |s| < |needle| {
    } else if s[..|needle|] == needle {
      assert OccursAt(s, 0, needle);
    } else {
      StrRemoveIdentity(s[1..], needle);
      var t := s[1..];
      ContainsPastHead(s, needle);
      if StrRemove(t, needle) == t {
        assert StrRemove(s, needle) == [s[0]] + t == s;
      } else {
        assert StrRemove(s, needle) == [s[0]] + StrRemove(t, needle);
        assert StrRemove(s, needle)[1..] == StrRemove(t, needle);
      }
    }
  }

  /** Past a head that is no occurrence, `s` holds the needle exactly when
      its tail does. */
  lemma ContainsPastHead(s: string, needle: string)
    requires |needle| > 0 && |s| >= |needle| && s[..|needle|] != needle
    ensures Contains(s, needle) <==> Contains(s[1..], needle)
  {
    var t := s[1..];
    if Contains(t, needle) {
      var i :| 0 <= i <= |t| - |needle| && OccursAt(t, i, needle);
      assert s[i + 1..i + 1 + |needle|] == t[i..i + |needle|];
      assert OccursAt(s, i + 1, needle);
    }
    if Contains(s, needle) {
      var i :| 0 <= i <= |s| - |needle| && OccursAt(s, i, needle);
      assert i != 0;
      assert t[i - 1..i - 1 + |needle|] == s[i..i + |needle|];
      assert OccursAt(t, i - 1, needle);
    }
  }

  /** `str_replace` of a leading needle that does not recur in the rest. */
  lemma RemoveLeadingOnce(head: string, tail: string)
    requires |head| > 0 && !Contains(tail, head)
    ensures StrRemove(head + tail, head) == tail
  {
    var s := head + tail;
    assert s[..|head|] == head;
    assert s[|head|..] == tail;
    StrRemoveIdentity(tail, head);
  }

  /** ASCII lower-casing, the case folding of a caseless PCRE pattern in non-UTF mode. */
  function Lower(c: char): (r: char)
    ensures 'A' <= c <= 'Z' ==> r != c && 'a' <= r <= 'z'
    ensures !('A' <= c <= 'Z') ==> r == c
  {
    if 'A' <= c <= 'Z' then (c as int + 32) as char else c
  }

  /** `s` has the (lower-case) literal `p` at position `i`, ignoring ASCII case. */
  predicate MatchesCIAt(s: string, i: int, p: string)
    decreases |p|
  {
    0 <= i && i + |p| <= |s| && (|p| == 0 || (Lower(s[i]) == p[0] && MatchesCIAt(s, i + 1, p[1..])))
  }

  /** A case-insensitive match inside a slice is a match in the whole string. */
  lemma {:induction false} MatchesCIShift(s: string, lo: int, hi: int, k: int, p: string)
    requires 0 <= lo <= hi <= |s|
    requires 0 <= k && lo + k + |p| <= hi
    ensures MatchesCIAt(s[lo..hi], k, p) <==> MatchesCIAt(s, lo + k, p)
    decreases |p|
  {
    if |p| > 0 {
      assert s[lo..hi][k] == s[lo + k];
      MatchesCIShift(s, lo, hi, k + 1, p[1..]);
    }
  }

  /** `s` has one of the (lower-case) literals `ps` at `i`, ignoring ASCII
      case: a regex alternation of literals. */
  predicate MatchesAnyCIAt(s: string, i: int, ps: seq<string>)
    decreases |ps|
  {
    |ps| > 0 && (MatchesCIAt(s, i, ps[0]) || MatchesAnyCIAt(s, i, ps[1..]))
  }

  /** An alternation of non-empty literals. */
  predicate AllNonEmpty(ps: seq<string>)
  {
    forall j :: 0 <= j < |ps| ==> |ps[j]| > 0
  }

  /** Non-empty literals match only at positions inside the string. */
  lemma {:induction false} MatchesAnyCIInside(s: string, i: int, ps: seq<string>)
    requires AllNonEmpty(ps)
    requires MatchesAnyCIAt(s, i, ps)
    ensures 0 <= i < |s|
    decreases |ps|
  {
    if !MatchesCIAt(s, i, ps[0]) {
      MatchesAnyCIInside(s, i, ps[1..]);
    }
  }

  /** The first position at or after `from` holding the character `c`. */
  function CharFrom(s: string, c: char, from: nat): (r: Option<nat>)
    ensures r.Some? ==> from <= r.value < |s| && s[r.value] == c
    ensures r.Some? ==> forall k :: from <= k < r.value ==> s[k] != c
    ensures r.None? ==> forall k :: from <= k < |s| ==> s[k] != c
    decreases |s| - from
  {
    if from >= |s| then None
    else if s[from] == c then Some(from)
    else CharFrom(s, c, from + 1)
  }

  /** The first position at or after `from` where one of `ps` starts. */
  function FirstCI(s: string, ps: seq<string>, from: nat): (r: Option<nat>)
    requires AllNonEmpty(ps)
    ensures r.Some? ==> from <= r.value < |s| && MatchesAnyCIAt(s, r.value, ps)
    ensures r.Some? ==> forall k :: from <= k < r.value ==> !MatchesAnyCIAt(s, k, ps)
    ensures r.None? ==> forall k :: from <= k ==> !MatchesAnyCIAt(s, k, ps)
    decreases |s| - from
  {
    if from >= |s| then
      assert forall k :: from <= k && MatchesAnyCIAt(s, k, ps) ==> k < |s| by {
        forall k | from <= k && MatchesAnyCIAt(s, k, ps) {
          MatchesAnyCIInside(s, k, ps);
        }
      }
      None
    else if MatchesAnyCIAt(s, from, ps) then Some(from)
    else FirstCI(s, ps, from + 1)
  }

  /** The last position at or after `from` where one of `ps` starts: where a
      greedy `.*` followed by one of `ps` stops. */
  function LastCI(s: string, ps: seq<string>, from: nat): (r: Option<nat>)
    requires AllNonEmpty(ps)
    ensures r.Some? ==> from <= r.value < |s| && MatchesAnyCIAt(s, r.value, ps)
    ensures r.Some? ==> forall k :: r.value < k ==> !MatchesAnyCIAt(s, k, ps)
    ensures r.None? ==> forall k :: from <= k ==> !MatchesAnyCIAt(s, k, ps)
  {
    assert forall k :: MatchesAnyCIAt(s, k, ps) ==> k < |s| by {
      forall k | MatchesAnyCIAt(s, k, ps) {
        MatchesAnyCIInside(s, k, ps);
      }
    }
    LastBelow(s, ps, from, |s|)
  }

  function LastBelow(s: string, ps: seq<string>, from: nat, hi: nat): (r: Option<nat>)
    requires AllNonEmpty(ps)
    requires hi <= |s|
    ensures r.Some? ==> from <= r.value < hi && MatchesAnyCIAt(s, r.value, ps)
    ensures r.Some? ==> forall k :: r.value < k < hi ==> !MatchesAnyCIAt(s, k, ps)
    ensures r.None? ==> forall k :: from <= k < hi ==> !MatchesAnyCIAt(s, k, ps)
    decreases hi
  {
    if from >= hi then None
    else if MatchesAnyCIAt(s, hi - 1, ps) then Some(hi - 1)
    else LastBelow(s, ps, from, hi - 1)
  }
}
