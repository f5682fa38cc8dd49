/** The chat template tag `get_the_post_style_chat`: a definition list with
    one `<dt>`/`<dd>` pair per transcript row, stanza boundaries erased. */
module ChatRender {
  import opened Php
  import opened OrderedMap
  import opened ChatDialects
  import opened ChatParser
  import opened WordPress

  /** The tag's result: `array()` when there is no transcript, else markup. */
  datatype ChatHtml = NoTranscript | Html(markup: string)

  const ListOpen: string := "<dl class=\"chat\">"
  const ListClose: string := "</dl><!-- .chat -->"

  /** The row template's fixed text, around its four slots. The source file
      has CRLF line endings, so the literal's line breaks are "\r\n". */
  const AuthorSlot: string := "<dt class=\"chat-author chat-author-"
  const TimeSlot: string := " vcard\">"
  const NameSlot: string := " <cite class=\"fn\">"
  const MessageSlot: string := "</cite>: </dt>\r\n\t\t\t\t\t\t<dd class=\"chat-text\">"
  const RowEnd: string := "</dd>\r\n\t\t\t\t\t"

  /** The timestamp element, present only for a non-empty time. */
  function TimeElement(host: Host, time: string): (r: string)
    ensures PhpEmpty(time) <==> r == ""
  {
    if PhpEmpty(time) then ""
    else "<time class=\"chat-timestamp\">" + host.escHtml(time) + "</time>"
  }

  /** One row: the author's slug as a class, the timestamp, the escaped
      author and the message as is. */
  function RowMarkup(host: Host, row: Row): (r: string)
    ensures Framed(r, AuthorSlot, RowEnd)
  {
    var r := AuthorSlot + host.escAttr(host.sanitizeTitleWithDashes(row.author)) + TimeSlot
      + TimeElement(host, row.time) + NameSlot + host.escHtml(row.author)
      + MessageSlot + row.message + RowEnd;
    assert r[..|AuthorSlot|] == AuthorSlot;
    assert r[|r| - |RowEnd|..] == RowEnd;
    r
  }

  function RowsMarkup(host: Host, rows: seq<Row>): string
  {
    if |rows| == 0 then "" else RowMarkup(host, rows[0]) + RowsMarkup(host, rows[1..])
  }

  function StanzasMarkup(host: Host, ss: seq<Stanza>): string
  {
    if |ss| == 0 then "" else RowsMarkup(host, ss[0]) + StanzasMarkup(host, ss[1..])
  }

  /** The rows of all stanzas, in order. */
  function Flatten(ss: seq<Stanza>): seq<Row>
  {
    if |ss| == 0 then [] else ss[0] + Flatten(ss[1..])
  }

  /** Rendering of a parsed transcript. */
  function RenderStanzas(host: Host, ss: seq<Stanza>): (r: ChatHtml)
    ensures r.NoTranscript? <==> ss == []
    ensures r.Html? ==> r.markup == ListOpen + RowsMarkup(host, Flatten(ss)) + ListClose
  {
    if |ss| == 0 then NoTranscript
    else
      StanzasFlatten(host, ss);
      Html(ListOpen + StanzasMarkup(host, ss) + ListClose)
  }

  /** `get_the_post_style_chat`: the transcript of `content` as markup,
      always wrapped in the list tags. */
  function PostStyleChat(host: Host, parsers: Parsers, content: string): (r: ChatHtml)
    ensures r.NoTranscript? <==> ContentChat(host, parsers, content) == []
    ensures r.Html? ==> Framed(r.markup, ListOpen, ListClose)
  {
    var ss := ContentChat(host, parsers, content);
    var r := RenderStanzas(host, ss);
    FramedConcat(ListOpen, RowsMarkup(host, Flatten(ss)), ListClose);
    r
  }

  /** `s` begins with `open` and ends with `close`. */
  predicate Framed(s: string, open: string, close: string)
  {
    |open| + |close| <= |s| && s[..|open|] == open && s[|s| - |close|..] == close
  }

  lemma FramedConcat(open: string, body: string, close: string)
    ensures Framed(open + body + close, open, close)
  {
    var s := open + body + close;
    assert s[..|open|] == open;
    assert s[|s| - |close|..] == close;
  }

  /** Row markup distributes over concatenation of row lists. */
  lemma {:induction false} RowsMarkupAppend(host: Host, a: seq<Row>, b: seq<Row>)
    ensures RowsMarkup(host, a + b) == RowsMarkup(host, a) + RowsMarkup(host, b)
    decreases |a|
  {
    if |a| == 0 {
      assert a + b == b;
      assert RowsMarkup(host, a) + RowsMarkup(host, b) == RowsMarkup(host, b);
    } else {
      assert (a + b)[0] == a[0] && (a + b)[1..] == a[1..] + b;
      RowsMarkupAppend(host, a[1..], b);
      var x := RowMarkup(host, a[0]);
      calc {
        RowsMarkup(host, a + b);
        x + RowsMarkup(host, a[1..] + b);
        x + (RowsMarkup(host, a[1..]) + RowsMarkup(host, b));
        (x + RowsMarkup(host, a[1..])) + RowsMarkup(host, b);
        RowsMarkup(host, a) + RowsMarkup(host, b);
      }
    }
  }

  /** Stanza boundaries leave no trace: the markup is that of the flattened rows. */
  lemma {:induction false} StanzasFlatten(host: Host, ss: seq<Stanza>)
    ensures StanzasMarkup(host, ss) == RowsMarkup(host, Flatten(ss))
    decreases |ss|
  {
    if |ss| > 0 {
      StanzasFlatten(host, ss[1..]);
      RowsMarkupAppend(host, ss[0], Flatten(ss[1..]));
    }
  }

  /** Empty stanzas, pushed by consecutive blank lines, contribute nothing. */
  lemma EmptyStanzasInvisible(host: Host, a: seq<Stanza>, b: seq<Stanza>)
    ensures StanzasMarkup(host, a + [[]] + b) == StanzasMarkup(host, a + b)
  {
    var e: seq<Stanza> := [[]] + b;
    assert a + [[]] + b == a + e;
    assert e[1..] == b;
    assert Flatten(e) == [] + Flatten(b) == Flatten(b);
    FlattenAppend(a, e);
    FlattenAppend(a, b);
    StanzasFlatten(host, a + e);
    StanzasFlatten(host, a + b);
  }

  lemma {:induction false} FlattenAppend(a: seq<Stanza>, b: seq<Stanza>)
    ensures Flatten(a + b) == Flatten(a) + Flatten(b)
    decreases |a|
  {
    if |a| == 0 {
      assert a + b == b;
    } else {
      assert (a + b)[1..] == a[1..] + b;
      FlattenAppend(a[1..], b);
    }
  }

  /** A row's markup: the author slot opens it, the row end closes it, and
      right after the author's class the name slot follows at once exactly
      when there is no time. */
  lemma RowShape(host: Host, row: Row)
    ensures var m := RowMarkup(host, row);
            var k := |AuthorSlot| + |host.escAttr(host.sanitizeTitleWithDashes(row.author))| + |TimeSlot|;
            && m[..|AuthorSlot|] == AuthorSlot
            && m[|m| - |RowEnd|..] == RowEnd
            && k + |NameSlot| <= |m|
            && (PhpEmpty(row.time) <==> m[k..k + |NameSlot|] == NameSlot)
  {
    var slug := host.escAttr(host.sanitizeTitleWithDashes(row.author));
    var head := AuthorSlot + slug + TimeSlot;
    var t := TimeElement(host, row.time);
    var mid := host.escHtml(row.author) + MessageSlot + row.message;
    var m := RowMarkup(host, row);
    RowParts(host, row);
    var k := |head|;
    MiddleSlice(head, t + NameSlot + mid, RowEnd, |NameSlot|);
    if PhpEmpty(row.time) {
      assert t + NameSlot + mid == NameSlot + mid;
    } else {
      assert (t + NameSlot + mid)[0] == '<' != NameSlot[0];
    }
  }

  /** A row's markup as its head up to the time slot, the part from the
      time element to the message, and the row end. */
  lemma RowParts(host: Host, row: Row)
    ensures RowMarkup(host, row)
         == (AuthorSlot + host.escAttr(host.sanitizeTitleWithDashes(row.author)) + TimeSlot)
            + (TimeElement(host, row.time) + NameSlot + (host.escHtml(row.author) + MessageSlot + row.message))
            + RowEnd
  {
    var head := AuthorSlot + host.escAttr(host.sanitizeTitleWithDashes(row.author)) + TimeSlot;
    var t, n := TimeElement(host, row.time), host.escHtml(row.author);
    var u, v := MessageSlot, row.message;
    calc {
      head + (t + NameSlot + (n + u + v));
      { Assoc(t + NameSlot, n + u, v); }
      head + ((t + NameSlot + (n + u)) + v);
      { Assoc(head, t + NameSlot + (n + u), v); }
      (head + (t + NameSlot + (n + u))) + v;
      { Assoc(t + NameSlot, n, u); Assoc(head, t + NameSlot + n, u); }
      (head + (t + NameSlot + n)) + u + v;
      { Assoc(t, NameSlot, n); Assoc(head, t + (NameSlot + n), u); Assoc(head, t, NameSlot + n); Assoc(head + t, NameSlot, n); }
      head + t + NameSlot + n + u + v;
    }
  }

  lemma Assoc(x: string, y: string, z: string)
    ensures x + (y + z) == x + y + z
  {
  }

  lemma MiddleSlice(a: string, b: string, c: string, n: nat)
    requires n <= |b|
    ensures (a + b + c)[|a|..|a| + n] == b[..n]
  {
    assert forall i :: 0 <= i < n ==> (a + b + c)[|a| + i] == b[i];
  }

  /** Slicing a four-part concatenation. */
  lemma Split3(a: string, b: string, c: string, d: string)
    ensures var s := a + b + c + d;
            && s[..|a|] == a
            && s[|s| - |d|..] == d
            && (|a| + |b| + |c| <= |s|)
            && s[|a|..|a| + |b| + |c|] == b + c
  {
    var s := a + b + c + d;
    assert s == a + (b + c) + d;
  }

  /** A one-row transcript renders as exactly that row's markup between
      the list tags. */
  lemma SingleRow(h: Host, row: Row)
    ensures RenderStanzas(h, [[row]]) == Html(ListOpen + RowMarkup(h, row) + ListClose)
  {
    assert Flatten([[row]]) == [row] + Flatten([]) == [row];
    assert RowsMarkup(h, [row]) == RowMarkup(h, row) + RowsMarkup(h, []);
  }
}
