/** The chat transcript parser `get_content_chat`: the trimmed, tag-stripped
    content picks the first dialect whose newline matcher accepts it, and its
    lines are then walked once, left to right, as a fold over a `Walk` state. */
module ChatParser {
  import opened Php
  import opened OrderedMap
  import opened ChatDialects
  import opened WordPress

  /** One line of a transcript: `array('time' => …, 'author' => …, 'message' => …)`. */
  datatype Row = Row(time: string, author: string, message: string)

  /** A block of rows between blank lines. */
  type Stanza = seq<Row>

  /** The state of the line walk: the pending speaker's author and time, the
      fragments of their message, the rows of the open stanza, the closed
      stanzas, whether a speaker line has been seen, and whether the walk
      broke off at trailing commentary. */
  datatype Walk = Walk(
    author: string,
    time: string,
    data: seq<string>,
    stanza: Stanza,
    stanzas: seq<Stanza>,
    found: bool,
    stopped: bool)

  function Start(): Walk
  {
    Walk("", "", [], [], [], false, false)
  }

  /** `$lines[$j]` as `empty()` and the delimiter test read it: past either
      end the undefined entry is null, which reads like "". */
  function RawLine(lines: seq<string>, j: int): string
  {
    if 0 <= j < |lines| then lines[j] else ""
  }

  /** With a non-empty group 2, group 1 is the time and group 2 the author;
      otherwise group 1 is the author and there is no time. */
  function AuthorOf(m: Match): string
  {
    if PhpEmpty(m.g2) then m.g1 else m.g2
  }

  function TimeOf(m: Match): string
  {
    if PhpEmpty(m.g2) then "" else m.g1
  }

  /** Whether a matched line opens a new speaker turn: a two-group match
      always does; otherwise the author must be free of whitespace, or the
      line must stand alone between two empty raw lines (a script cue). */
  predicate StartsSpeaker(m: Match, lines: seq<string>, i: int)
  {
    || !PhpEmpty(m.g2)
    || !HasWs(AuthorOf(m))
    || (PhpEmpty(RawLine(lines, i + 1)) && PhpEmpty(RawLine(lines, i - 1)))
  }

  /** The open stanza after the pending speaker's row, if any, is added. Rows
      closed mid-walk join their fragments with single spaces, untrimmed. */
  function CloseTurn(st: Walk): Stanza
  {
    if PhpEmpty(st.author) then st.stanza
    else st.stanza + [Row(st.time, st.author, Join(" ", st.data))]
  }

  /** One iteration of the line loop, for line `i`. Closed stanzas are only
      ever added to, by the pending turn; once a speaker line has been seen
      it stays seen; the walk breaks off only before a further line. */
  function Step(d: Dialect, lines: seq<string>, i: nat, st: Walk): (r: Walk)
    requires i < |lines|
    ensures r.stanzas == st.stanzas || r.stanzas == st.stanzas + [CloseTurn(st)]
    ensures st.found ==> r.found
    ensures r.stopped ==> st.stopped || i + 1 < |lines|
  {
    var line := Trim(lines[i]);
    if PhpEmpty(line) && st.found then
      var next := RawLine(lines, i + 1);
      Walk("", "", [], [], st.stanzas + [CloseTurn(st)], true, !PhpEmpty(next) && !d.delimiter(next))
    else match d.newline(line)
      case None => st
      case Some(m) =>
        if StartsSpeaker(m, lines, i) then
          var kept := if PhpEmpty(st.author) then st.data else [];
          st.(author := AuthorOf(m), time := TimeOf(m), stanza := CloseTurn(st),
              data := kept + [Trim(StrRemove(line, m.whole))], found := true)
        else if HasNonSpace(line) then
          st.(data := st.data + [line], found := true)
        else
          st.(found := true)
  }

  /** Line `i` is a speaker line of dialect `d` that introduces `author` at `time`. */
  ghost predicate SpeakerAt(d: Dialect, lines: seq<string>, i: int, time: string, author: string)
  {
    && 0 <= i < |lines|
    && d.newline(Trim(lines[i])).Some?
    && StartsSpeaker(d.newline(Trim(lines[i])).value, lines, i)
    && AuthorOf(d.newline(Trim(lines[i])).value) == author
    && TimeOf(d.newline(Trim(lines[i])).value) == time
  }

  ghost predicate Spoken(d: Dialect, lines: seq<string>, time: string, author: string)
  {
    exists i :: SpeakerAt(d, lines, i, time, author)
  }

  /** An emitted row names a non-empty author introduced, with that time, by
      some speaker line of the input. */
  ghost predicate RowOk(d: Dialect, lines: seq<string>, r: Row)
  {
    !PhpEmpty(r.author) && Spoken(d, lines, r.time, r.author)
  }

  ghost predicate StanzasOk(d: Dialect, lines: seq<string>, ss: seq<Stanza>)
  {
    forall s, r :: s in ss && r in s ==> RowOk(d, lines, r)
  }

  ghost predicate WalkOk(d: Dialect, lines: seq<string>, st: Walk)
  {
    && (forall r :: r in st.stanza ==> RowOk(d, lines, r))
    && StanzasOk(d, lines, st.stanzas)
    && (!PhpEmpty(st.author) ==> Spoken(d, lines, st.time, st.author))
  }

  lemma CloseTurnOk(d: Dialect, lines: seq<string>, st: Walk)
    requires WalkOk(d, lines, st)
    ensures forall r :: r in CloseTurn(st) ==> RowOk(d, lines, r)
  {
  }

  lemma StanzasAppendOk(d: Dialect, lines: seq<string>, ss: seq<Stanza>, s: Stanza)
    requires StanzasOk(d, lines, ss)
    requires forall r :: r in s ==> RowOk(d, lines, r)
    ensures StanzasOk(d, lines, ss + [s])
  {
    forall s', r | s' in ss + [s] && r in s'
      ensures RowOk(d, lines, r)
    {
      if s' !in ss {
        assert s' == s;
      }
    }
  }

  lemma StepKeepsOk(d: Dialect, lines: seq<string>, i: nat, st: Walk)
    requires i < |lines|
    ensures WalkOk(d, lines, st) ==> WalkOk(d, lines, Step(d, lines, i, st))
  {
    if WalkOk(d, lines, st) {
      var line := Trim(lines[i]);
      var r := Step(d, lines, i, st);
      CloseTurnOk(d, lines, st);
      if PhpEmpty(line) && st.found {
        StanzasAppendOk(d, lines, st.stanzas, CloseTurn(st));
        assert r.stanzas == st.stanzas + [CloseTurn(st)];
        assert r.author == "" && r.stanza == [];
      } else if d.newline(line).Some? {
        var m := d.newline(line).value;
        if StartsSpeaker(m, lines, i) {
          assert r.author == AuthorOf(m) && r.time == TimeOf(m);
          assert r.stanza == CloseTurn(st) && r.stanzas == st.stanzas;
          assert SpeakerAt(d, lines, i, TimeOf(m), AuthorOf(m));
        } else {
          assert r.author == st.author && r.time == st.time;
          assert r.stanza == st.stanza && r.stanzas == st.stanzas;
        }
      }
    }
  }

  /** The loop over lines `i..`, ending early once the walk has stopped. */
  function WalkFrom(d: Dialect, lines: seq<string>, i: nat, st: Walk): (r: Walk)
    ensures WalkOk(d, lines, st) ==> WalkOk(d, lines, r)
    ensures r.stopped && !st.stopped ==> i + 1 < |lines|
    decreases |lines| - i
  {
    if i >= |lines| || st.stopped then st
    else
      StepKeepsOk(d, lines, i, st);
      WalkFrom(d, lines, i + 1, Step(d, lines, i, st))
  }

  /** After the loop: the pending speaker's row, whose message alone is
      trimmed, closes the last stanza, which is kept only if non-empty. */
  function Finish(st: Walk): (r: seq<Stanza>)
  {
    var last := if PhpEmpty(st.author) then st.stanza
                else st.stanza + [Row(st.time, st.author, Trim(Join(" ", st.data)))];
    if |last| == 0 then st.stanzas else st.stanzas + [last]
  }

  /** The walk of `lines` under dialect `d`. Every row it emits has a
      non-empty author and comes from a speaker line of the input. */
  function ParseLines(d: Dialect, lines: seq<string>): (r: seq<Stanza>)
    ensures StanzasOk(d, lines, r)
  {
    var st := WalkFrom(d, lines, 0, Start());
    assert WalkOk(d, lines, st);
    Finish(st)
  }

  /** The first registered dialect whose newline matcher accepts `text`. */
  function FirstParser(parsers: Parsers, text: string): (r: Option<nat>)
    ensures r.Some? ==> r.value < |parsers| && parsers[r.value].1.newline(text).Some?
    ensures r.Some? ==> forall k :: 0 <= k < r.value ==> parsers[k].1.newline(text).None?
    ensures r.None? ==> forall k :: 0 <= k < |parsers| ==> parsers[k].1.newline(text).None?
  {
    if |parsers| == 0 then None
    else if parsers[0].1.newline(text).Some? then Some(0)
    else match FirstParser(parsers[1..], text)
      case None => None
      case Some(k) => Some(k + 1)
  }

  /** The text the dialects are tried against: `strip_tags(trim($content))`. */
  function ChatText(host: Host, content: string): string
  {
    host.stripTags(Trim(content))
  }

  /** The lines walked: the auto-linked text split at line feeds. */
  function ChatLines(host: Host, text: string): seq<string>
  {
    Explode(host.makeClickable(text), '\n')
  }

  /** `get_content_chat`: the transcript, or none when the text is empty or
      no dialect recognises it. */
  function ContentChat(host: Host, parsers: Parsers, content: string): (r: seq<Stanza>)
    ensures PhpEmpty(ChatText(host, content)) ==> r == []
    ensures (forall k :: 0 <= k < |parsers| ==> parsers[k].1.newline(ChatText(host, content)).None?) ==> r == []
    ensures forall s, row :: s in r && row in s ==> !PhpEmpty(row.author)
  {
    var text := ChatText(host, content);
    if PhpEmpty(text) then []
    else match FirstParser(parsers, text)
      case None => []
      case Some(k) => ParseLines(parsers[k].1, ChatLines(host, text))
  }

  /** Provenance: when a transcript is produced, it is the walk of the
      selected dialect, and each row's author and time were introduced by a
      speaker line of that dialect. */
  lemma ContentChatProvenance(host: Host, parsers: Parsers, content: string)
    requires ContentChat(host, parsers, content) != []
    ensures !PhpEmpty(ChatText(host, content))
    ensures FirstParser(parsers, ChatText(host, content)).Some?
    ensures var d := parsers[FirstParser(parsers, ChatText(host, content)).value].1;
            StanzasOk(d, ChatLines(host, ChatText(host, content)), ContentChat(host, parsers, content))
  {
  }

  /** Lines the newline matcher rejects are dropped, unless they are the
      blank line that closes a stanza. */
  lemma StepDropsUnmatched(d: Dialect, lines: seq<string>, i: nat, st: Walk)
    requires i < |lines|
    requires !(PhpEmpty(Trim(lines[i])) && st.found)
    requires d.newline(Trim(lines[i])).None?
    ensures Step(d, lines, i, st) == st
  {
  }

  /** A matched line that opens a turn: the previous speaker's row is closed,
      the author and time come from the captures, and the message starts with
      the trimmed line minus every occurrence of the whole match. */
  lemma StepNewSpeaker(d: Dialect, lines: seq<string>, i: nat, st: Walk)
    requires i < |lines|
    requires !(PhpEmpty(Trim(lines[i])) && st.found)
    requires d.newline(Trim(lines[i])).Some?
    requires StartsSpeaker(d.newline(Trim(lines[i])).value, lines, i)
    ensures var m := d.newline(Trim(lines[i])).value;
            var r := Step(d, lines, i, st);
            && (!PhpEmpty(m.g2) ==> r.time == m.g1 && r.author == m.g2)
            && (PhpEmpty(m.g2) ==> r.time == "" && r.author == m.g1)
            && r.stanza == CloseTurn(st)
            && r.stanzas == st.stanzas
            && r.data[|r.data| - 1] == Trim(StrRemove(Trim(lines[i]), m.whole))
            && (!PhpEmpty(st.author) ==> |r.data| == 1)
            && r.found && r.stopped == st.stopped
  {
    var line := Trim(lines[i]);
    var m := d.newline(line).value;
    var kept := if PhpEmpty(st.author) then st.data else [];
    assert Step(d, lines, i, st)
        == st.(author := AuthorOf(m), time := TimeOf(m), stanza := CloseTurn(st),
               data := kept + [Trim(StrRemove(line, m.whole))], found := true);
  }

  /** A matched line that does not open a turn is appended, trimmed but
      otherwise verbatim, to the pending message; the speaker is unchanged. */
  lemma StepContinuation(d: Dialect, lines: seq<string>, i: nat, st: Walk)
    requires i < |lines|
    requires !(PhpEmpty(Trim(lines[i])) && st.found)
    requires d.newline(Trim(lines[i])).Some?
    requires !StartsSpeaker(d.newline(Trim(lines[i])).value, lines, i)
    ensures var r := Step(d, lines, i, st);
            && r.author == st.author && r.time == st.time && r.stanza == st.stanza
            && r.data == st.data + (if HasNonSpace(Trim(lines[i])) then [Trim(lines[i])] else [])
            && r.found
  {
  }

  /** Once a speaker line has been seen, a blank line closes the stanza (with
      the pending row, if any) and resets the turn; the walk stops when the
      next raw line is non-empty and fails the delimiter test. */
  lemma StepBlankLine(d: Dialect, lines: seq<string>, i: nat, st: Walk)
    requires i < |lines|
    requires PhpEmpty(Trim(lines[i])) && st.found
    ensures var r := Step(d, lines, i, st);
            && r.stanzas == st.stanzas + [CloseTurn(st)]
            && r.author == "" && r.time == "" && r.data == [] && r.stanza == []
            && (r.stopped <==> i + 1 < |lines| && !PhpEmpty(lines[i + 1]) && !d.delimiter(lines[i + 1]))
  {
  }

  /** Only the three raw lines around `i` matter to the step at `i`. */
  lemma StepLocal(d: Dialect, a: seq<string>, b: seq<string>, i: nat, st: Walk)
    requires i + 1 < |a|
    ensures Step(d, a + b, i, st) == Step(d, a, i, st)
  {
    assert (a + b)[i] == a[i];
    assert RawLine(a + b, i + 1) == RawLine(a, i + 1);
    assert RawLine(a + b, i - 1) == RawLine(a, i - 1);
  }

  lemma {:induction false} WalkIgnoresTail(d: Dialect, a: seq<string>, b: seq<string>, i: nat, st: Walk)
    requires WalkFrom(d, a, i, st).stopped
    ensures WalkFrom(d, a + b, i, st) == WalkFrom(d, a, i, st)
    decreases |a| - i
  {
    if !st.stopped {
      var st' := Step(d, a, i, st);
      StepLocal(d, a, b, i, st);
      WalkIgnoresTail(d, a, b, i + 1, st');
    }
  }

  /** Commentary after a transcript is ignored: once the walk of `a` breaks
      off, appending further lines changes nothing. */
  lemma TrailingCommentaryIgnored(d: Dialect, a: seq<string>, b: seq<string>)
    requires WalkFrom(d, a, 0, Start()).stopped
    ensures ParseLines(d, a + b) == ParseLines(d, a)
  {
    WalkIgnoresTail(d, a, b, 0, Start());
  }
}
