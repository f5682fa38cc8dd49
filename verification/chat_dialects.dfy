/** Chat dialects: a newline regex that recognises the start of a speaker's
    line and a delimiter regex, registered under a name in an ordered map.
    The two built-in dialects are hand-coded matchers for the regexes the
    plugin registers, so no general regex engine is needed. */
module ChatDialects {
  import opened Php
  import opened OrderedMap

  /** The captures of a successful newline match: `$matches[0]`,
      `$matches[1]` and `$matches[2]`, an unset group read as "". */
  datatype Match = Match(whole: string, g1: string, g2: string)

  /** A dialect: the newline regex as a matcher, the delimiter regex as a test. */
  datatype Dialect = Dialect(newline: string -> Option<Match>, delimiter: string -> bool)

  /** The dialect registry, tried in order. */
  type Parsers = OMap<Dialect>

  /** `add_chat_detection_style`: the new dialect goes first, replacing any
      dialect registered under the same name. */
  function AddChatDetectionStyle(parsers: Parsers, name: string, d: Dialect): (r: Parsers)
    ensures |r| >= 1 && r[0].0 == name && r[0].1 == d
    ensures Without(r, name) == Without(parsers, name)
    ensures forall other :: other != name ==> Get(r, other) == Get(parsers, other)
    ensures UniqueKeys(parsers) ==> UniqueKeys(r)
  {
    PrependSpec(parsers, name, d);
    Prepend(parsers, name, d)
  }

  /** The delimiter regex `#[:]#` of both built-in dialects. */
  predicate HasColon(s: string)
  {
    ':' in s
  }

  /** The IM newline regex `#^([^:]+):#`: anchored at the start, with group 1
      everything before the first colon. `[^:]` also matches line breaks. */
  function ImNewline(s: string): (r: Option<Match>)
    ensures r.Some? <==> ':' in s && s[0] != ':'
    ensures r.Some? ==> r.value.g2 == "" && r.value.whole == r.value.g1 + ":"
    ensures r.Some? ==> |r.value.g1| > 0 && ':' !in r.value.g1
    ensures r.Some? ==> |r.value.whole| <= |s| && s[..|r.value.whole|] == r.value.whole
  {
    match IndexOf(s, ':')
    case None => None
    case Some(k) =>
      if k > 0 then
        assert s[..k + 1] == s[..k] + ":";
        Some(Match(s[..k + 1], s[..k], ""))
      else None
  }

  /** A match of the Skype newline regex `(\[.+?\])\s([^:]+):` starting at
      `i`, with the closing bracket at `j` and the colon at `c`: `.` stops at
      a line feed, `\s` is one PCRE space, `[^:]+` runs to the first colon. */
  ghost predicate SkypeShape(s: string, i: int, j: int, c: int)
  {
    && 0 <= i && i + 2 <= j && j + 2 < c < |s|
    && s[i] == '[' && s[j] == ']'
    && (forall k :: i < k < j ==> s[k] != '\n')
    && IsPcreSpace(s[j + 1])
    && s[c] == ':'
    && (forall k :: j + 2 <= k < c ==> s[k] != ':')
  }

  /** The position of the colon ending the author group after a `]` at `j`. */
  function SkypeColon(s: string, j: nat): (r: Option<nat>)
    ensures r.Some? ==> j + 2 < r.value < |s| && s[r.value] == ':'
    ensures r.Some? ==> IsPcreSpace(s[j + 1]) && forall k :: j + 2 <= k < r.value ==> s[k] != ':'
    ensures r.None? ==> forall i, c :: !SkypeShape(s, i, j, c)
  {
    if j + 1 < |s| && IsPcreSpace(s[j + 1]) then
      match CharFrom(s, ':', j + 2)
      case Some(c) => if c > j + 2 then Some(c) else None
      case None => None
    else None
  }

  /** The lazy `.+?\]` scan: the first bracket position `j` from `j0` on whose
      remainder matches. */
  function SkypeClose(s: string, i: nat, j0: nat): (r: Option<(nat, nat)>)
    requires i < |s| && s[i] == '[' && i + 2 <= j0
    requires forall k :: i < k < |s| && k < j0 - 1 ==> s[k] != '\n'
    ensures r.Some? ==> j0 <= r.value.0 && SkypeShape(s, i, r.value.0, r.value.1)
    ensures r.Some? ==> forall j, c :: j0 <= j < r.value.0 ==> !SkypeShape(s, i, j, c)
    ensures r.None? ==> forall j, c :: j0 <= j ==> !SkypeShape(s, i, j, c)
    decreases |s| - j0
  {
    if j0 >= |s| then None
    else if s[j0 - 1] == '\n' then None
    else if s[j0] == ']' && SkypeColon(s, j0).Some? then Some((j0, SkypeColon(s, j0).value))
    else SkypeClose(s, i, j0 + 1)
  }

  /** The leftmost-starting Skype match at or after `i0`, lazy in its bracket. */
  function SkypeSearch(s: string, i0: nat): (r: Option<(nat, nat, nat)>)
    ensures r.Some? ==> i0 <= r.value.0 && SkypeShape(s, r.value.0, r.value.1, r.value.2)
    ensures r.Some? ==> forall i, j, c :: i0 <= i && SkypeShape(s, i, j, c) ==>
                          r.value.0 < i || (r.value.0 == i && r.value.1 <= j)
    ensures r.None? ==> forall i, j, c :: i0 <= i ==> !SkypeShape(s, i, j, c)
    decreases |s| - i0
  {
    if i0 >= |s| then None
    else if s[i0] == '[' && SkypeClose(s, i0, i0 + 2).Some? then
      var jc := SkypeClose(s, i0, i0 + 2).value;
      Some((i0, jc.0, jc.1))
    else SkypeSearch(s, i0 + 1)
  }

  /** The Skype newline regex. Group 1 keeps its square brackets. */
  function SkypeNewline(s: string): (r: Option<Match>)
    ensures r.None? <==> forall i, j, c :: !SkypeShape(s, i, j, c)
    ensures r.Some? ==> |r.value.g1| >= 3 && r.value.g1[0] == '[' && r.value.g1[|r.value.g1| - 1] == ']'
    ensures r.Some? ==> |r.value.g2| > 0 && ':' !in r.value.g2
  {
    match SkypeSearch(s, 0)
    case None => None
    case Some(p) =>
      var m := Match(s[p.0..p.2 + 1], s[p.0..p.1 + 1], s[p.1 + 2..p.2]);
      assert forall k :: 0 <= k < |m.g2| ==> m.g2[k] == s[p.1 + 2 + k];
      Some(m)
  }

  /** The Skype search returns the leftmost, then shortest-bracket, match:
      any match so placed is the one found. */
  lemma SkypeNewlineIs(s: string, i: nat, j: nat, c: nat)
    requires SkypeShape(s, i, j, c)
    requires forall i', j', c' :: SkypeShape(s, i', j', c') ==> i < i' || (i == i' && j <= j')
    ensures SkypeNewline(s) == Some(Match(s[i..c + 1], s[i..j + 1], s[j + 2..c]))
  {
    var p := SkypeSearch(s, 0).value;
    assert p.0 == i && p.1 == j;
    SkypeColonUnique(s, i, j, c, p.2);
  }

  lemma SkypeColonUnique(s: string, i: nat, j: nat, c: nat, c': nat)
    requires SkypeShape(s, i, j, c) && SkypeShape(s, i, j, c')
    ensures c == c'
  {
  }

  /** Text without an opening bracket is never Skype-shaped. */
  lemma SkypeNeedsBracket(s: string)
    requires '[' !in s
    ensures SkypeNewline(s).None?
  {
  }

  function ImDialect(): Dialect
  {
    Dialect(ImNewline, HasColon)
  }

  function SkypeDialect(): Dialect
  {
    Dialect(SkypeNewline, HasColon)
  }

  /** The registry after the plugin's constructor has registered IM and then Skype. */
  function DefaultParsers(): (r: Parsers)
    ensures Keys(r) == ["Skype", "IM"]
    ensures r[0].1 == SkypeDialect() && r[1].1 == ImDialect()
  {
    AddChatDetectionStyle(AddChatDetectionStyle([], "IM", ImDialect()), "Skype", SkypeDialect())
  }
}
