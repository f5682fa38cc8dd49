/** Worked transcripts: the two-speaker IM exchange documented on
    `get_content_chat`, stated for any names and messages of that shape, and
    prose that no dialect recognises. */
module ChatScenarios {
  import opened Php
  import opened ChatDialects
  import opened ChatParser
  import opened WordPress

  /** A speaker name the IM dialect reads as an author: no colon, no
      whitespace, no bracket, not a trimmed character at its start, and not
      PHP-empty. */
  predicate ImName(a: string)
  {
    && |a| > 0 && a != "0" && !IsTrimChar(a[0])
    && ':' !in a && '[' !in a && !HasWs(a)
  }

  /** A one-line message without colons or brackets and with no trimmed
      character at either end. */
  predicate ImMessage(x: string)
  {
    && |x| > 0 && !IsTrimChar(x[0]) && !IsTrimChar(x[|x| - 1])
    && ':' !in x && '[' !in x && '\n' !in x
  }

  /** `name: message`, the way a chat post writes a speaker line. */
  function SpeakerLine(a: string, x: string): string
  {
    a + ": " + x
  }

  /** A needle holding a character the text lacks cannot occur in it. */
  lemma AbsentCharNoOccurrence(s: string, p: string, k: nat)
    requires k < |p| && p[k] !in s
    ensures !Contains(s, p)
  {
  }

  /** A speaker line is left alone by `trim()`, read by the IM dialect with
      the name as group 1, and leaves the message once the match is removed. */
  lemma ImSpeakerLine(a: string, x: string)
    requires ImName(a) && ImMessage(x)
    ensures Trim(SpeakerLine(a, x)) == SpeakerLine(a, x)
    ensures ImNewline(SpeakerLine(a, x)) == Some(Match(a + ":", a, ""))
    ensures Trim(StrRemove(SpeakerLine(a, x), a + ":")) == x
  {
    var s := SpeakerLine(a, x);
    var rest := " " + x;
    assert s == a + ":" + rest;
    TrimClean(s);
    IndexAfterFree(a, ':', rest);
    assert s[..|a| + 1] == a + ":";
    assert s[..|a|] == a;
    assert (a + ":")[|a|] == ':' && ':' !in rest;
    AbsentCharNoOccurrence(rest, a + ":", |a|);
    assert s == (a + ":") + rest;
    RemoveLeadingOnce(a + ":", rest);
    assert rest == [' '] + x;
    TrimDropsLeading(' ', x);
    TrimClean(x);
  }

  /** The step over a speaker line under the IM dialect. */
  lemma ImTurn(lines: seq<string>, i: nat, st: Walk, a: string, x: string)
    requires i < |lines| && lines[i] == SpeakerLine(a, x)
    requires ImName(a) && ImMessage(x)
    ensures Step(ImDialect(), lines, i, st)
         == st.(author := a, time := "", stanza := CloseTurn(st),
                data := (if PhpEmpty(st.author) then st.data else []) + [x], found := true)
  {
    ImSpeakerLine(a, x);
    var m := Match(a + ":", a, "");
    assert ImDialect().newline(Trim(lines[i])) == Some(m);
    assert AuthorOf(m) == a && TimeOf(m) == "";
    assert StartsSpeaker(m, lines, i);
  }

  /** The transcript text of two speaker lines picks the IM dialect and
      splits into exactly those two lines. */
  lemma TwoLinesSetup(a: string, x: string, b: string, y: string)
    requires ImName(a) && ImMessage(x) && ImName(b) && ImMessage(y)
    ensures var content := SpeakerLine(a, x) + "\n" + SpeakerLine(b, y);
            && ChatText(PlainHost(), content) == content
            && FirstParser(DefaultParsers(), content) == Some(1)
            && ChatLines(PlainHost(), content) == [SpeakerLine(a, x), SpeakerLine(b, y)]
  {
    var l0, l1 := SpeakerLine(a, x), SpeakerLine(b, y);
    var content := l0 + "\n" + l1;
    assert content[0] == a[0] && content[|content| - 1] == y[|y| - 1];
    TrimClean(content);
    assert '[' !in l0 && '[' !in l1;
    SkypeNeedsBracket(content);
    assert content[|a|] == ':' && content[0] != ':';
    ImLineMatches(content);
    assert '\n' !in l0 && '\n' !in l1;
    assert Join(['\n'], [l0, l1]) == content;
    JoinExplode([l0, l1], '\n');
  }

  lemma ImLineMatches(s: string)
    requires ':' in s && s[0] != ':'
    ensures ImNewline(s).Some?
  {
  }

  lemma FirstTurn(a: string, x: string, lines: seq<string>)
    requires ImName(a) && ImMessage(x)
    requires |lines| > 0 && lines[0] == SpeakerLine(a, x)
    ensures Step(ImDialect(), lines, 0, Start()) == Walk(a, "", [x], [], [], true, false)
  {
    ImTurn(lines, 0, Start(), a, x);
  }

  lemma SecondTurn(a: string, x: string, b: string, y: string, lines: seq<string>)
    requires ImName(a) && ImName(b) && ImMessage(y)
    requires |lines| > 1 && lines[1] == SpeakerLine(b, y)
    ensures Step(ImDialect(), lines, 1, Walk(a, "", [x], [], [], true, false))
         == Walk(b, "", [y], [Row("", a, x)], [], true, false)
  {
    var st1 := Walk(a, "", [x], [], [], true, false);
    ImTurn(lines, 1, st1, b, y);
    assert CloseTurn(st1) == [Row("", a, x)];
  }

  /** The walk over two speaker lines: one open stanza holding the first
      speaker's row, with the second speaker's turn pending. */
  lemma TwoTurns(a: string, x: string, b: string, y: string, lines: seq<string>)
    requires ImName(a) && ImMessage(x) && ImName(b) && ImMessage(y)
    requires lines == [SpeakerLine(a, x), SpeakerLine(b, y)]
    ensures WalkFrom(ImDialect(), lines, 0, Start()) == Walk(b, "", [y], [Row("", a, x)], [], true, false)
  {
    FirstTurn(a, x, lines);
    SecondTurn(a, x, b, y, lines);
    var st1 := Walk(a, "", [x], [], [], true, false);
    var st2 := Walk(b, "", [y], [Row("", a, x)], [], true, false);
    assert WalkFrom(ImDialect(), lines, 2, st2) == st2;
    assert WalkFrom(ImDialect(), lines, 1, st1) == st2;
  }

  /** The example documented on `get_content_chat` ("Scott: Hey, let's
      chat!" then "Helen: No."), for any two such speakers: under the
      built-in dialects the transcript is one stanza of two rows without
      times, each message recovered exactly. */
  lemma TwoSpeakers(a: string, x: string, b: string, y: string)
    requires ImName(a) && ImMessage(x) && ImName(b) && ImMessage(y)
    ensures ContentChat(PlainHost(), DefaultParsers(), SpeakerLine(a, x) + "\n" + SpeakerLine(b, y))
         == [[Row("", a, x), Row("", b, y)]]
  {
    var content := SpeakerLine(a, x) + "\n" + SpeakerLine(b, y);
    var lines := [SpeakerLine(a, x), SpeakerLine(b, y)];
    TwoLinesSetup(a, x, b, y);
    TwoSpeakerLines(a, x, b, y, lines);
    assert ContentChat(PlainHost(), DefaultParsers(), content)
        == ParseLines(DefaultParsers()[1].1, lines);
  }

  lemma TwoSpeakerLines(a: string, x: string, b: string, y: string, lines: seq<string>)
    requires ImName(a) && ImMessage(x) && ImName(b) && ImMessage(y)
    requires lines == [SpeakerLine(a, x), SpeakerLine(b, y)]
    ensures ParseLines(ImDialect(), lines) == [[Row("", a, x), Row("", b, y)]]
  {
    TwoTurns(a, x, b, y, lines);
    FinishTwo(a, x, b, y);
  }

  lemma FinishTwo(a: string, x: string, b: string, y: string)
    requires ImName(b) && ImMessage(y)
    ensures Finish(Walk(b, "", [y], [Row("", a, x)], [], true, false)) == [[Row("", a, x), Row("", b, y)]]
  {
    var st := Walk(b, "", [y], [Row("", a, x)], [], true, false);
    TrimClean(y);
    assert Join(" ", [y]) == y;
    var last := st.stanza + [Row(st.time, st.author, Trim(Join(" ", st.data)))];
    assert last == [Row("", a, x), Row("", b, y)];
    assert Finish(st) == st.stanzas + [last];
  }

  // The concrete scenarios below take their string literals as parameters
  // pinned by `requires` rather than writing them inline: that keeps the
  // literals out of the solver's way until they are needed and the proofs cheap.

  /** The documented example itself: "Scott: Hey, let's chat!" and
      "Helen: No." on two lines give one stanza of two rows without times. */
  lemma ScottAndHelen(scott: string, hey: string, helen: string, no: string)
    requires scott == "Scott" && hey == "Hey, let's chat!" && helen == "Helen" && no == "No."
    ensures ContentChat(PlainHost(), DefaultParsers(), SpeakerLine(scott, hey) + "\n" + SpeakerLine(helen, no))
         == [[Row("", scott, hey), Row("", helen, no)]]
  {
    ImParts(scott, hey);
    ImParts(helen, no);
    TwoSpeakers(scott, hey, helen, no);
  }

  lemma ImParts(a: string, x: string)
    requires a in {"Scott", "Helen"} && x in {"Hey, let's chat!", "No.", "no"}
    ensures ImName(a) && ImMessage(x)
  {
  }

  /** Prose without a colon is no chat: no dialect accepts it. */
  lemma ProseIsNoChat(content: string)
    requires ':' !in content
    ensures ContentChat(PlainHost(), DefaultParsers(), content) == []
  {
    var text := ChatText(PlainHost(), content);
    assert forall k :: 0 <= k < |text| ==> text[k] in content;
    assert ':' !in text;
  }

  /** A speaker line with nothing after the colon: `trim()` leaves it, IM
      reads the name, and the message fragment it starts is empty. */
  lemma ImCue(lines: seq<string>, i: nat, st: Walk, a: string)
    requires i < |lines| && Trim(lines[i]) == a + ":"
    requires ImName(a)
    ensures Step(ImDialect(), lines, i, st)
         == st.(author := a, time := "", stanza := CloseTurn(st),
                data := (if PhpEmpty(st.author) then st.data else []) + [""], found := true)
  {
    var s := a + ":";
    var m := ImCueMatch(a);
    assert AuthorOf(m) == a && TimeOf(m) == "" && |Trim(lines[i])| == |a| + 1;
    RemoveLeadingOnce(s, "");
    assert s + "" == s;
    assert Trim("") == "";
    SpeakerStep(ImDialect(), lines, i, st, m);
  }

  lemma ImCueMatch(a: string) returns (m: Match)
    requires ImName(a)
    ensures m == Match(a + ":", a, "") && ImNewline(a + ":") == Some(m)
  {
    var s := a + ":";
    IndexAfterFree(a, ':', "");
    assert a + [':'] + "" == s;
    assert s[..|a|] == a && s[..|a| + 1] == s;
    m := Match(s, a, "");
  }

  /** What `strip_tags` leaves of the markup of two timeless rows, `a` saying
      `x` and `b` saying `y`, split at line feeds: the row template puts the
      author and the message on lines of their own, padded with the
      template's tabs and carriage returns. */
  function RenderedLines(a: string, x: string, b: string, y: string): seq<string>
  {
    [ CueLine(" ", a), TextLine(x), CueLine("\t\t\t\t\t ", b), TextLine(y), "\t\t\t\t\t" ]
  }

  /** The stripped `<dt>` of a timeless row: the template's padding, the
      author, the colon and a trailing space and carriage return. */
  function CueLine(pad: string, a: string): string
  {
    pad + (a + ":") + " \r"
  }

  /** The stripped `<dd>` of a row: six tabs, the message, a carriage return. */
  function TextLine(x: string): string
  {
    "\t\t\t\t\t\t" + x + "\r"
  }

  lemma CueTrims(a: string, b: string)
    requires ImName(a) && ImName(b)
    ensures Trim(CueLine(" ", a)) == a + ":"
    ensures Trim(CueLine("\t\t\t\t\t ", b)) == b + ":"
  {
    CueTrim(" ", a);
    CueTrim("\t\t\t\t\t ", b);
  }

  lemma CueTrim(pad: string, a: string)
    requires AllTrim(pad)
    requires |a| > 0 && !IsTrimChar(a[0])
    ensures Trim(CueLine(pad, a)) == a + ":"
  {
    TrimPadded(pad, a + ":", " \r");
  }

  lemma TextTrim(x: string)
    requires |x| > 0 && !IsTrimChar(x[0]) && !IsTrimChar(x[|x| - 1])
    ensures Trim(TextLine(x)) == x
  {
    TrimPadded("\t\t\t\t\t\t", x, "\r");
  }

  lemma RenderedAuthors(a: string, x: string, b: string, y: string, lines: seq<string>)
    requires ImName(a) && ImMessage(x) && ImName(b) && ImMessage(y)
    requires lines == RenderedLines(a, x, b, y)
    ensures Step(ImDialect(), lines, 0, Start()) == Walk(a, "", [""], [], [], true, false)
    ensures Step(ImDialect(), lines, 2, Walk(a, "", [""], [], [], true, false))
         == Walk(b, "", [""], [Row("", a, "")], [], true, false)
  {
    CueTrims(a, b);
    ImCue(lines, 0, Start(), a);
    SecondCue(a, b, lines);
  }

  lemma SecondCue(a: string, b: string, lines: seq<string>)
    requires ImName(a) && ImName(b)
    requires |lines| > 2 && Trim(lines[2]) == b + ":"
    ensures Step(ImDialect(), lines, 2, Walk(a, "", [""], [], [], true, false))
         == Walk(b, "", [""], [Row("", a, "")], [], true, false)
  {
    var st1 := Walk(a, "", [""], [], [], true, false);
    ImCue(lines, 2, st1, b);
    assert CloseTurn(st1) == [Row("", a, "")];
  }

  lemma RenderedMessages(a: string, x: string, b: string, y: string, lines: seq<string>, st: Walk)
    requires ImMessage(x) && ImMessage(y)
    requires x != "0" && y != "0"
    requires lines == RenderedLines(a, x, b, y)
    requires st.found
    ensures Step(ImDialect(), lines, 1, st) == st
    ensures Step(ImDialect(), lines, 3, st) == st
  {
    TextDropped(x, lines, 1, st);
    TextDropped(y, lines, 3, st);
  }

  /** A message line on its own has no colon, so IM rejects it and the
      walk drops it. */
  lemma TextDropped(x: string, lines: seq<string>, i: nat, st: Walk)
    requires ImMessage(x) && x != "0"
    requires i < |lines| && lines[i] == TextLine(x)
    requires st.found
    ensures Step(ImDialect(), lines, i, st) == st
  {
    TextTrim(x);
    StepDropsUnmatched(ImDialect(), lines, i, st);
  }

  lemma RenderedEnd(a: string, x: string, b: string, y: string, lines: seq<string>)
    requires ImName(a) && ImMessage(x) && ImName(b) && ImMessage(y)
    requires lines == RenderedLines(a, x, b, y)
    ensures Step(ImDialect(), lines, 4, Walk(b, "", [""], [Row("", a, "")], [], true, false))
         == Walk("", "", [], [], [[Row("", a, ""), Row("", b, "")]], true, false)
  {
    RenderedLast(a, x, b, y);
    TrimBlank("\t\t\t\t\t");
    var st2 := Walk(b, "", [""], [Row("", a, "")], [], true, false);
    StepBlankLine(ImDialect(), lines, 4, st2);
    CloseCue(a, b);
  }

  lemma RenderedLast(a: string, x: string, b: string, y: string)
    ensures |RenderedLines(a, x, b, y)| == 5 && RenderedLines(a, x, b, y)[4] == "\t\t\t\t\t"
  {
  }

  /** A turn whose only fragment is empty closes as a row with an empty message. */
  lemma CloseCue(a: string, b: string)
    requires ImName(b)
    ensures CloseTurn(Walk(b, "", [""], [Row("", a, "")], [], true, false))
         == [Row("", a, ""), Row("", b, "")]
  {
    assert Join(" ", [""]) == "";
  }

  /** The walk over the rendered lines: each author line opens a turn with an
      empty message, and each message line, having no colon, is dropped. */
  lemma RenderedWalk(a: string, x: string, b: string, y: string, lines: seq<string>)
    requires ImName(a) && ImMessage(x) && ImName(b) && ImMessage(y)
    requires x != "0" && y != "0"
    requires lines == RenderedLines(a, x, b, y)
    ensures WalkFrom(ImDialect(), lines, 0, Start())
         == Walk("", "", [], [], [[Row("", a, ""), Row("", b, "")]], true, false)
  {
    var d := ImDialect();
    var st1 := Walk(a, "", [""], [], [], true, false);
    var st2 := Walk(b, "", [""], [Row("", a, "")], [], true, false);
    var st4 := Walk("", "", [], [], [[Row("", a, ""), Row("", b, "")]], true, false);
    RenderedAuthors(a, x, b, y, lines);
    RenderedMessages(a, x, b, y, lines, st1);
    RenderedMessages(a, x, b, y, lines, st2);
    RenderedEnd(a, x, b, y, lines);
    assert |lines| == 5;
    assert WalkFrom(d, lines, 5, st4) == st4;
    assert WalkFrom(d, lines, 4, st2) == st4;
    assert WalkFrom(d, lines, 3, st2) == st4;
    assert WalkFrom(d, lines, 2, st1) == st4;
    assert WalkFrom(d, lines, 1, st1) == st4;
  }

  /** Rendered chat markup does not parse back to its transcript: with the
      tags stripped, the authors are found again but every message is lost,
      because each message stands on a line of its own without a colon and
      the walk drops lines the newline matcher rejects. */
  lemma RenderedMessagesLost(a: string, x: string, b: string, y: string)
    requires ImName(a) && ImMessage(x) && ImName(b) && ImMessage(y)
    requires x != "0" && y != "0"
    ensures ParseLines(ImDialect(), RenderedLines(a, x, b, y)) == [[Row("", a, ""), Row("", b, "")]]
  {
    RenderedWalk(a, x, b, y, RenderedLines(a, x, b, y));
  }

  /** The text inside a Skype timestamp's brackets: one line, no `]`. */
  predicate SkypeTime(t: string)
  {
    |t| > 0 && ']' !in t && '\n' !in t
  }

  /** `[time] name: message`, the way a Skype log writes a speaker line. */
  function SkypeLine(t: string, a: string, x: string): string
  {
    "[" + t + "] " + a + ": " + x
  }

  /** The Skype match of a speaker line: `[time] name:`. */
  function SkypeHead(t: string, a: string): string
  {
    "[" + t + "] " + a + ":"
  }

  /** The first Skype-shaped match of a text that starts with a speaker
      line is that line's head: the bracket closes at the first `]`, and
      the author runs to the colon after it. */
  lemma SkypeShapeOfLine(s: string, t: string, a: string)
    requires SkypeTime(t) && ImName(a)
    requires |SkypeHead(t, a)| <= |s| && s[..|SkypeHead(t, a)|] == SkypeHead(t, a)
    ensures SkypeShape(s, 0, |t| + 1, |t| + 3 + |a|)
    ensures forall i', j', c' :: SkypeShape(s, i', j', c') ==> 0 < i' || (0 == i' && |t| + 1 <= j')
  {
    var h := SkypeHead(t, a);
    var j, c := |t| + 1, |t| + 3 + |a|;
    assert s[0] == h[0] == '[' && s[j] == h[j] == ']';
    assert s[j + 1] == h[j + 1] == ' ' && s[c] == h[c] == ':';
    assert forall k :: 0 < k < j ==> s[k] == h[k] == t[k - 1];
    assert forall k :: j + 2 <= k < c ==> s[k] == h[k] == a[k - j - 2];
    assert forall k :: 0 < k < j ==> s[k] != ']';
  }

  /** A Skype speaker line is left alone by `trim()`, read with the
      bracketed time as group 1 and the name as group 2, and leaves the
      message once the match is removed. */
  lemma SkypeSpeakerLine(t: string, a: string, x: string)
    requires SkypeTime(t) && ImName(a) && ImMessage(x)
    ensures Trim(SkypeLine(t, a, x)) == SkypeLine(t, a, x)
    ensures SkypeNewline(SkypeLine(t, a, x)) == Some(Match(SkypeHead(t, a), "[" + t + "]", a))
    ensures Trim(StrRemove(SkypeLine(t, a, x), SkypeHead(t, a))) == x
  {
    SkypeLineMatch(t, a, x);
    SkypeLineRest(t, a, x);
  }

  lemma SkypeLineMatch(t: string, a: string, x: string)
    requires SkypeTime(t) && ImName(a) && ImMessage(x)
    ensures SkypeNewline(SkypeLine(t, a, x)) == Some(Match(SkypeHead(t, a), "[" + t + "]", a))
  {
    var s := SkypeLine(t, a, x);
    var h := SkypeHead(t, a);
    SkypeLineHead(t, a, x);
    SkypeShapeOfLine(s, t, a);
    var j, c := |t| + 1, |t| + 3 + |a|;
    SkypeNewlineIs(s, 0, j, c);
    SkypeHeadGroups(t, a);
    SliceOfPrefix(s, h, 0, c + 1);
    SliceOfPrefix(s, h, 0, j + 1);
    SliceOfPrefix(s, h, j + 2, c);
    assert h[0..c + 1] == h;
    var m := Match(s[0..c + 1], s[0..j + 1], s[j + 2..c]);
    assert m.whole == h && m.g1 == "[" + t + "]" && m.g2 == a;
  }

  lemma SkypeLineHead(t: string, a: string, x: string)
    ensures SkypeLine(t, a, x) == SkypeHead(t, a) + " " + x
    ensures SkypeLine(t, a, x)[..|SkypeHead(t, a)|] == SkypeHead(t, a)
  {
    var h := SkypeHead(t, a);
    assert SkypeLine(t, a, x) == h + " " + x;
    assert (h + " " + x)[..|h|] == h;
  }

  /** Where the two groups sit in a Skype head. */
  lemma SkypeHeadGroups(t: string, a: string)
    ensures |SkypeHead(t, a)| == |t| + 4 + |a|
    ensures SkypeHead(t, a)[0..|t| + 2] == "[" + t + "]"
    ensures SkypeHead(t, a)[|t| + 3..|t| + 3 + |a|] == a
  {
    var h := SkypeHead(t, a);
    assert h == "[" + t + "]" + " " + a + ":";
  }

  lemma SliceOfPrefix(s: string, h: string, lo: nat, hi: nat)
    requires lo <= hi <= |h| <= |s| && s[..|h|] == h
    ensures s[lo..hi] == h[lo..hi]
  {
    assert forall k :: lo <= k < hi ==> s[k] == s[..|h|][k];
  }

  lemma SkypeLineRest(t: string, a: string, x: string)
    requires SkypeTime(t) && ImName(a) && ImMessage(x)
    ensures Trim(SkypeLine(t, a, x)) == SkypeLine(t, a, x)
    ensures Trim(StrRemove(SkypeLine(t, a, x), SkypeHead(t, a))) == x
  {
    var s := SkypeLine(t, a, x);
    var h := SkypeHead(t, a);
    var rest := " " + x;
    assert s == h + rest;
    TrimClean(s);
    AbsentCharNoOccurrence(rest, h, 0);
    RemoveLeadingOnce(h, rest);
    assert rest == [' '] + x;
    TrimDropsLeading(' ', x);
    TrimClean(x);
  }

  /** The step over a Skype speaker line. */
  lemma SkypeTurn(lines: seq<string>, i: nat, st: Walk, t: string, a: string, x: string)
    requires i < |lines| && lines[i] == SkypeLine(t, a, x)
    requires SkypeTime(t) && ImName(a) && ImMessage(x)
    ensures Step(SkypeDialect(), lines, i, st)
         == st.(author := a, time := "[" + t + "]", stanza := CloseTurn(st),
                data := (if PhpEmpty(st.author) then st.data else []) + [x], found := true)
  {
    SkypeSpeakerLine(t, a, x);
    var m := Match(SkypeHead(t, a), "[" + t + "]", a);
    assert |lines[i]| > 1;
    assert AuthorOf(m) == a && TimeOf(m) == "[" + t + "]";
    SpeakerStep(SkypeDialect(), lines, i, st, m);
  }

  /** The step over a line whose match opens a turn, spelled out. */
  lemma SpeakerStep(d: Dialect, lines: seq<string>, i: nat, st: Walk, m: Match)
    requires i < |lines| && !PhpEmpty(Trim(lines[i]))
    requires d.newline(Trim(lines[i])) == Some(m)
    requires StartsSpeaker(m, lines, i)
    ensures Step(d, lines, i, st)
         == st.(author := AuthorOf(m), time := TimeOf(m), stanza := CloseTurn(st),
                data := (if PhpEmpty(st.author) then st.data else [])
                        + [Trim(StrRemove(Trim(lines[i]), m.whole))], found := true)
  {
  }

  /** A two-line Skype log picks the Skype dialect, which is registered
      first, and splits into its two lines. */
  lemma SkypeLinesSetup(t: string, a: string, x: string, u: string, b: string, y: string)
    requires SkypeTime(t) && ImName(a) && ImMessage(x)
    requires SkypeTime(u) && ImName(b) && ImMessage(y)
    ensures var content := SkypeLine(t, a, x) + "\n" + SkypeLine(u, b, y);
            && ChatText(PlainHost(), content) == content
            && FirstParser(DefaultParsers(), content) == Some(0)
            && ChatLines(PlainHost(), content) == [SkypeLine(t, a, x), SkypeLine(u, b, y)]
  {
    var l0, l1 := SkypeLine(t, a, x), SkypeLine(u, b, y);
    var content := l0 + "\n" + l1;
    SkypeTextClean(l0, y, l1, content);
    SkypeLogPicked(t, a, x, content);
    SkypeLogSplits(t, a, x, u, b, y);
  }

  lemma SkypeTextClean(l0: string, y: string, l1: string, content: string)
    requires |l0| > 0 && l0[0] == '[' && ImMessage(y)
    requires |l1| >= |y| && l1[|l1| - |y|..] == y
    requires content == l0 + "\n" + l1
    ensures ChatText(PlainHost(), content) == content
  {
    assert content[0] == '[';
    assert content[|content| - 1] == l1[|l1| - 1] == y[|y| - 1];
    TrimClean(content);
  }

  lemma SkypeLogPicked(t: string, a: string, x: string, content: string)
    requires SkypeTime(t) && ImName(a)
    requires |SkypeHead(t, a)| <= |content| && content[..|SkypeHead(t, a)|] == SkypeHead(t, a)
    ensures FirstParser(DefaultParsers(), content) == Some(0)
  {
    SkypeShapeOfLine(content, t, a);
    assert SkypeNewline(content).Some?;
  }

  lemma SkypeLogSplits(t: string, a: string, x: string, u: string, b: string, y: string)
    requires SkypeTime(t) && ImName(a) && ImMessage(x)
    requires SkypeTime(u) && ImName(b) && ImMessage(y)
    ensures ChatLines(PlainHost(), SkypeLine(t, a, x) + "\n" + SkypeLine(u, b, y))
         == [SkypeLine(t, a, x), SkypeLine(u, b, y)]
  {
    var l0, l1 := SkypeLine(t, a, x), SkypeLine(u, b, y);
    assert !HasWs(a) && !HasWs(b);
    assert '\n' !in l0 && '\n' !in l1;
    assert Join(['\n'], [l0, l1]) == l0 + "\n" + l1;
    JoinExplode([l0, l1], '\n');
  }

  lemma SkypeTurns(t: string, a: string, x: string, u: string, b: string, y: string, lines: seq<string>)
    requires SkypeTime(t) && ImName(a) && ImMessage(x)
    requires SkypeTime(u) && ImName(b) && ImMessage(y)
    requires lines == [SkypeLine(t, a, x), SkypeLine(u, b, y)]
    ensures WalkFrom(SkypeDialect(), lines, 0, Start())
         == Walk(b, "[" + u + "]", [y], [Row("[" + t + "]", a, x)], [], true, false)
  {
    var d := SkypeDialect();
    var st1 := Walk(a, "[" + t + "]", [x], [], [], true, false);
    var st2 := Walk(b, "[" + u + "]", [y], [Row("[" + t + "]", a, x)], [], true, false);
    SkypeTurn(lines, 0, Start(), t, a, x);
    assert Step(d, lines, 0, Start()) == st1;
    SecondSkypeTurn(t, a, x, u, b, y, lines);
    assert WalkFrom(d, lines, 2, st2) == st2;
    assert WalkFrom(d, lines, 1, st1) == st2;
  }

  lemma SecondSkypeTurn(t: string, a: string, x: string, u: string, b: string, y: string, lines: seq<string>)
    requires ImName(a) && SkypeTime(u) && ImName(b) && ImMessage(y)
    requires |lines| > 1 && lines[1] == SkypeLine(u, b, y)
    ensures Step(SkypeDialect(), lines, 1, Walk(a, "[" + t + "]", [x], [], [], true, false))
         == Walk(b, "[" + u + "]", [y], [Row("[" + t + "]", a, x)], [], true, false)
  {
    var st1 := Walk(a, "[" + t + "]", [x], [], [], true, false);
    SkypeTurn(lines, 1, st1, u, b, y);
    assert CloseTurn(st1) == [Row("[" + t + "]", a, x)];
  }

  /** A two-line Skype log, for any two such speakers: one stanza of two
      rows, each time kept with its brackets, each author taken from group
      2, and each message what follows the match. */
  lemma TwoSkypeSpeakers(t: string, a: string, x: string, u: string, b: string, y: string)
    requires SkypeTime(t) && ImName(a) && ImMessage(x)
    requires SkypeTime(u) && ImName(b) && ImMessage(y)
    ensures ContentChat(PlainHost(), DefaultParsers(), SkypeLine(t, a, x) + "\n" + SkypeLine(u, b, y))
         == [[Row("[" + t + "]", a, x), Row("[" + u + "]", b, y)]]
  {
    var content := SkypeLine(t, a, x) + "\n" + SkypeLine(u, b, y);
    var lines := [SkypeLine(t, a, x), SkypeLine(u, b, y)];
    SkypeLinesSetup(t, a, x, u, b, y);
    TwoSkypeLines(t, a, x, u, b, y, lines);
    assert ContentChat(PlainHost(), DefaultParsers(), content)
        == ParseLines(DefaultParsers()[0].1, lines);
  }

  lemma TwoSkypeLines(t: string, a: string, x: string, u: string, b: string, y: string, lines: seq<string>)
    requires SkypeTime(t) && ImName(a) && ImMessage(x)
    requires SkypeTime(u) && ImName(b) && ImMessage(y)
    requires lines == [SkypeLine(t, a, x), SkypeLine(u, b, y)]
    ensures ParseLines(SkypeDialect(), lines) == [[Row("[" + t + "]", a, x), Row("[" + u + "]", b, y)]]
  {
    SkypeTurns(t, a, x, u, b, y, lines);
    FinishTimed("[" + t + "]", a, x, "[" + u + "]", b, y);
  }

  lemma FinishTimed(ta: string, a: string, x: string, tb: string, b: string, y: string)
    requires !PhpEmpty(b) && ImMessage(y)
    ensures Finish(Walk(b, tb, [y], [Row(ta, a, x)], [], true, false)) == [[Row(ta, a, x), Row(tb, b, y)]]
  {
    var st := Walk(b, tb, [y], [Row(ta, a, x)], [], true, false);
    TrimClean(y);
    assert Join(" ", [y]) == y;
    var last := st.stanza + [Row(st.time, st.author, Trim(Join(" ", st.data)))];
    assert last == [Row(ta, a, x), Row(tb, b, y)];
    assert Finish(st) == st.stanzas + [last];
  }

  /** A concrete Skype log: "[10:02] Alice: hi" then "[10:03] Bob: hey". */
  lemma AliceAndBob(t: string, a: string, x: string, u: string, b: string, y: string)
    requires t == "10:02" && a == "Alice" && x == "hi" && u == "10:03" && b == "Bob" && y == "hey"
    ensures ContentChat(PlainHost(), DefaultParsers(), SkypeLine(t, a, x) + "\n" + SkypeLine(u, b, y))
         == [[Row("[10:02]", "Alice", "hi"), Row("[10:03]", "Bob", "hey")]]
  {
    SkypeParts(t, a, x, "[10:02]");
    SkypeParts(u, b, y, "[10:03]");
    TwoSkypeSpeakers(t, a, x, u, b, y);
  }

  lemma SkypeParts(t: string, a: string, x: string, s: string)
    requires (t == "10:02" && s == "[10:02]") || (t == "10:03" && s == "[10:03]")
    requires a in {"Alice", "Bob"} && x in {"hi", "hey"}
    ensures SkypeTime(t) && ImName(a) && ImMessage(x)
    ensures "[" + t + "]" == s
  {
    if t == "10:02" {
      assert |s| == 7 && s[1..6] == t;
    } else {
      assert |s| == 7 && s[1..6] == t;
    }
    Bracketed(t, s);
  }

  lemma Bracketed(t: string, s: string)
    requires |s| >= 2 && s[0] == '[' && s[|s| - 1] == ']' && t == s[1..|s| - 1]
    ensures "[" + t + "]" == s
  {
  }

  /** A remark `w:rest` that IM matches but whose group 1 `w` holds
      whitespace, so it opens no turn unless it stands alone. */
  predicate ImRemarkParts(w: string, rest: string)
  {
    && |w| > 0 && !IsTrimChar(w[0]) && !IsPcreSpace(w[0]) && ':' !in w && HasWs(w)
    && |rest| > 0 && !IsTrimChar(rest[|rest| - 1])
  }

  /** A remark line is no speaker line when the raw line before it is
      non-empty: it is kept, trimmed, as a further fragment of the pending
      message. */
  lemma ImRemark(lines: seq<string>, i: nat, st: Walk, w: string, rest: string)
    requires 0 < i < |lines| && lines[i] == w + ":" + rest
    requires ImRemarkParts(w, rest)
    requires !PhpEmpty(lines[i - 1])
    ensures Step(ImDialect(), lines, i, st) == st.(data := st.data + [lines[i]], found := true)
  {
    var l := lines[i];
    TrimClean(l);
    IndexAfterFree(w, ':', rest);
    assert l[..|w|] == w && l[..|w| + 1] == w + ":";
    var m := Match(w + ":", w, "");
    assert ImNewline(l) == Some(m);
    assert !StartsSpeaker(m, lines, i);
    assert l[0] == w[0];
    assert HasNonSpace(l);
    StepContinuation(ImDialect(), lines, i, st);
  }

  lemma RemarkSteps(a: string, w: string, rest: string, lines: seq<string>)
    requires ImName(a) && ImRemarkParts(w, rest)
    requires |lines| >= 2 && lines[0] == a + ":" && lines[1] == w + ":" + rest
    ensures Step(ImDialect(), lines, 0, Start()) == Walk(a, "", [""], [], [], true, false)
    ensures Step(ImDialect(), lines, 1, Walk(a, "", [""], [], [], true, false))
         == Walk(a, "", ["", w + ":" + rest], [], [], true, false)
  {
    TrimClean(a + ":");
    ImCue(lines, 0, Start(), a);
    ImRemark(lines, 1, Walk(a, "", [""], [], [], true, false), w, rest);
  }

  lemma RemarkClosed(a: string, c: string, b: string, y: string, lines: seq<string>)
    requires ImName(a) && ImName(b) && ImMessage(y)
    requires |lines| == 3 && lines[2] == SpeakerLine(b, y)
    ensures Step(ImDialect(), lines, 2, Walk(a, "", ["", c], [], [], true, false))
         == Walk(b, "", [y], [Row("", a, " " + c)], [], true, false)
  {
    var st2 := Walk(a, "", ["", c], [], [], true, false);
    ImTurn(lines, 2, st2, b, y);
    JoinAfterEmpty(c);
    assert CloseTurn(st2) == [Row("", a, " " + c)];
  }

  /** Only the message of the last row is trimmed: a row closed by the next
      speaker line joins its fragments as they are. A bare `a:` cue followed
      by a remark therefore leaves `a`'s message with a leading space. */
  lemma MidWalkMessageUntrimmed(a: string, w: string, rest: string, b: string, y: string)
    requires ImName(a) && ImRemarkParts(w, rest) && ImName(b) && ImMessage(y)
    ensures ParseLines(ImDialect(), [a + ":", w + ":" + rest, SpeakerLine(b, y)])
         == [[Row("", a, " " + (w + ":" + rest)), Row("", b, y)]]
  {
    var c := w + ":" + rest;
    var lines := [a + ":", c, SpeakerLine(b, y)];
    var d := ImDialect();
    var st1 := Walk(a, "", [""], [], [], true, false);
    var st2 := Walk(a, "", ["", c], [], [], true, false);
    var st3 := Walk(b, "", [y], [Row("", a, " " + c)], [], true, false);
    RemarkWalk(a, w, rest, b, y, lines);
    FinishTwo(a, " " + c, b, y);
  }

  lemma RemarkWalk(a: string, w: string, rest: string, b: string, y: string, lines: seq<string>)
    requires ImName(a) && ImRemarkParts(w, rest) && ImName(b) && ImMessage(y)
    requires lines == [a + ":", w + ":" + rest, SpeakerLine(b, y)]
    ensures WalkFrom(ImDialect(), lines, 0, Start())
         == Walk(b, "", [y], [Row("", a, " " + (w + ":" + rest))], [], true, false)
  {
    var c := w + ":" + rest;
    var d := ImDialect();
    var st1 := Walk(a, "", [""], [], [], true, false);
    var st3 := Walk(b, "", [y], [Row("", a, " " + c)], [], true, false);
    RemarkSteps(a, w, rest, lines);
    RemarkClosed(a, c, b, y, lines);
    assert WalkFrom(d, lines, 3, st3) == st3;
    assert WalkFrom(d, lines, 1, st1) == st3;
  }

  /** The same remark under the last speaker is trimmed with the rest of
      that speaker's message. */
  lemma LastMessageTrimmed(a: string, w: string, rest: string)
    requires ImName(a) && ImRemarkParts(w, rest)
    ensures ParseLines(ImDialect(), [a + ":", w + ":" + rest]) == [[Row("", a, w + ":" + rest)]]
  {
    var c := w + ":" + rest;
    var lines := [a + ":", c];
    var d := ImDialect();
    var st1 := Walk(a, "", [""], [], [], true, false);
    var st2 := Walk(a, "", ["", c], [], [], true, false);
    RemarkSteps(a, w, rest, lines);
    assert WalkFrom(d, lines, 2, st2) == st2;
    assert WalkFrom(d, lines, 1, st1) == st2;
    FinishRemark(a, w, rest);
  }

  lemma FinishRemark(a: string, w: string, rest: string)
    requires ImName(a) && ImRemarkParts(w, rest)
    ensures Finish(Walk(a, "", ["", w + ":" + rest], [], [], true, false)) == [[Row("", a, w + ":" + rest)]]
  {
    var c := w + ":" + rest;
    var st := Walk(a, "", ["", c], [], [], true, false);
    RemarkJoined(w, rest);
    var last := st.stanza + [Row(st.time, st.author, Trim(Join(" ", st.data)))];
    assert last == [Row("", a, c)];
    assert Finish(st) == st.stanzas + [last];
  }

  /** A fragment joined after an empty one gains a leading space. */
  lemma JoinAfterEmpty(c: string)
    ensures Join(" ", ["", c]) == " " + c
  {
    assert ["", c][1..] == [c];
  }

  /** Joined after an empty fragment and trimmed, a remark is itself. */
  lemma RemarkJoined(w: string, rest: string)
    requires ImRemarkParts(w, rest)
    ensures Trim(Join(" ", ["", w + ":" + rest])) == w + ":" + rest
  {
    var c := w + ":" + rest;
    JoinAfterEmpty(c);
    assert " " + c == [' '] + c;
    assert c[0] == w[0] && c[|c| - 1] == rest[|rest| - 1];
    TrimDropsLeading(' ', c);
    TrimClean(c);
  }

  /** The remark "well I said: ok" after a bare "Scott:" cue: Scott's
      message keeps a leading space when Helen speaks next. */
  lemma ScottsRemark(a: string, w: string, rest: string, b: string, y: string)
    requires a == "Scott" && w == "well I said" && rest == " ok" && b == "Helen" && y == "no"
    ensures ParseLines(ImDialect(), [a + ":", w + ":" + rest, SpeakerLine(b, y)])
         == [[Row("", a, " " + (w + ":" + rest)), Row("", b, y)]]
  {
    assert w[4] == ' ';
    MidWalkMessageUntrimmed(a, w, rest, b, y);
  }
}
