/** `style_formatting`, the `the_content` filter: outside single views, and
    when the formatting switch is on, a post's content is replaced by the
    part its style is about, then handed to `post_style_content_formatting`.
    Everything the filter reads besides its argument is an explicit input. */
module Formatting {
  import opened Php
  import opened OrderedMap
  import opened WordPress
  import opened ChatDialects
  import opened ChatParser
  import opened ChatRender
  import opened Extractors

  /** What `style_formatting` reads from WordPress: the plugin option as a
      boolean, `is_single()`, `get_post_style()` for the current post, the
      raw `get_the_content()`, `get_post_galleries()`, `get_post_custom()`
      as each meta key with its first value, and `get_style_shortcode`
      as a function of shortcode name and content. */
  datatype Env = Env(
    enabled: bool,
    isSingle: bool,
    style: Value,
    raw: string,
    galleries: seq<string>,
    meta: OMap<string>,
    shortcode: (string, string) -> Value)

  /** How the style switch is left: by returning a meta value at once, or
      with the content for the content filter. */
  datatype Exit = Early(value: string) | Filter(content: Value)

  /** The cases of the style switch; `Other` covers `image`, `aside`,
      `no-photo` and every style without a case. */
  datatype Case = ChatCase | QuoteCase | ListCase | GalleryCase | PlaylistCase
                | AudioCase | VideoCase | EmbedCase | LinkCase | Other

  /** The case a style selects. `switch` compares loosely, but every case
      label is a non-numeric string, which loosely equals only that same
      string: false, null and arrays select no case. */
  function CaseOf(style: Value): Case
  {
    if style == Str("chat") then ChatCase
    else if style == Str("quote") then QuoteCase
    else if style == Str("link-list") then ListCase
    else if style == Str("gallery") then GalleryCase
    else if style == Str("playlist") then PlaylistCase
    else if style == Str("audio") then AudioCase
    else if style == Str("video") then VideoCase
    else if style == Str("embed") then EmbedCase
    else if style == Str("link") then LinkCase
    else Other
  }

  /** The styles with a case of their own, in the order of the cases. */
  function CaseLabels(): seq<string>
  {
    ["chat", "quote", "link-list", "gallery", "playlist", "audio", "video", "embed", "link"]
  }

  /** Each labelled style selects its own case. */
  lemma CaseOfLabel(i: nat)
    requires i < |CaseLabels()|
    ensures CaseOf(Str(CaseLabels()[i]))
         == [ChatCase, QuoteCase, ListCase, GalleryCase, PlaylistCase, AudioCase, VideoCase, EmbedCase, LinkCase][i]
  {
  }

  /** Exactly the values that are not a labelled style select no case. */
  lemma CaseOfOther(style: Value)
    ensures CaseOf(style) == Other <==> !(style.Str? && style.s in CaseLabels())
  {
  }

  /** The chat tag's result as a PHP value. */
  function ChatValue(c: ChatHtml): (r: Value)
    ensures r == EmptyArray <==> c.NoTranscript?
  {
    match c
    case NoTranscript => EmptyArray
    case Html(m) => Str(m)
  }

  /** The position of the first meta key containing `oembed`, if any. */
  function FirstOembed(meta: OMap<string>): (r: Option<nat>)
    ensures r.None? <==> forall i :: 0 <= i < |meta| ==> !Contains(meta[i].0, "oembed")
    ensures r.Some? ==> r.value < |meta| && Contains(meta[r.value].0, "oembed")
    ensures r.Some? ==> forall i :: 0 <= i < r.value ==> !Contains(meta[i].0, "oembed")
  {
    if |meta| == 0 then None
    else if Contains(meta[0].0, "oembed") then Some(0)
    else match FirstOembed(meta[1..])
      case None => None
      case Some(i) => Some(i + 1)
  }

  /** The `embed` case: the first oembed meta value is returned at once;
      otherwise a non-empty iframe of the raw content replaces it. */
  function FromEmbed(env: Env, content: string): Exit
  {
    match FirstOembed(env.meta)
    case Some(i) => Early(env.meta[i].1)
    case None =>
      var frame := Iframe(env.raw);
      if Truthy(frame) then Filter(frame) else Filter(Str(content))
  }

  /** The `video` case: a truthy video shortcode, else on into `embed`. */
  function FromVideo(env: Env, content: string): Exit
  {
    var video := env.shortcode("video", content);
    if Truthy(video) then Filter(video) else FromEmbed(env, content)
  }

  /** The `audio` case: a truthy audio shortcode, else on into `video`. */
  function FromAudio(env: Env, content: string): Exit
  {
    var audio := env.shortcode("audio", content);
    if Truthy(audio) then Filter(audio) else FromVideo(env, content)
  }

  /** The style switch. */
  function Switch(host: Host, parsers: Parsers, env: Env, content: string): (r: Exit)
    ensures CaseOf(env.style) == Other ==> r == Filter(Str(content))
    ensures r.Early? ==> CaseOf(env.style) in {AudioCase, VideoCase, EmbedCase}
  {
    match CaseOf(env.style)
    case ChatCase => Filter(ChatValue(PostStyleChat(host, parsers, content)))
    case QuoteCase => Filter(Str(ContentQuote(content)))
    case ListCase => Filter(LinkList(env.raw))
    case GalleryCase => Filter(Str(if |env.galleries| > 0 then env.galleries[0] else content))
    case PlaylistCase => Filter(env.shortcode("playlist", content))
    case AudioCase => FromAudio(env, content)
    case VideoCase => FromVideo(env, content)
    case EmbedCase => FromEmbed(env, content)
    case LinkCase =>
      var a := Link(env.raw);
      Filter(if Truthy(a) then a else Str(content))
    case Other => Filter(Str(content))
  }

  /** `style_formatting($content)`. */
  function StyleFormatting(host: Host, parsers: Parsers, hooks: Hooks, env: Env, content: string): (r: Value)
    ensures env.isSingle || !hooks.formattingEnabled(env.enabled) ==> r == Str(content)
  {
    if !env.isSingle && hooks.formattingEnabled(env.enabled) then
      match Switch(host, parsers, env, content)
      case Early(v) => Str(v)
      case Filter(c) => hooks.contentFormatting(c, env.style)
    else Str(content)
  }

  /** Formatting is on for this view: not a single post, and the switch
      (after its filter) set. */
  predicate Active(hooks: Hooks, env: Env)
  {
    !env.isSingle && hooks.formattingEnabled(env.enabled)
  }

  /** Styles the switch has no case for (`image`, `aside`, `no-photo`,
      `standard`, a post type, false) hand the content to the content
      filter untouched; with no callbacks the content comes out as it went
      in. */
  lemma UnhandledStyleKeepsContent(host: Host, parsers: Parsers, hooks: Hooks, env: Env, content: string)
    requires Active(hooks, env) && !(env.style.Str? && env.style.s in CaseLabels())
    ensures StyleFormatting(host, parsers, hooks, env, content) == hooks.contentFormatting(Str(content), env.style)
    ensures hooks == NoHooks() ==> StyleFormatting(host, parsers, hooks, env, content) == Str(content)
  {
    CaseOfOther(env.style);
  }

  /** An `audio` post without an audio shortcode is formatted as a `video`
      post, and a `video` post without a video shortcode as an `embed`
      post, up to the style the content filter is told. */
  lemma AudioFallsToVideo(host: Host, parsers: Parsers, env: Env, content: string)
    requires env.style == Str("audio") && !Truthy(env.shortcode("audio", content))
    ensures Switch(host, parsers, env, content) == Switch(host, parsers, env.(style := Str("video")), content)
  {
    CaseOfLabel(5);
    CaseOfLabel(6);
  }

  lemma VideoFallsToEmbed(host: Host, parsers: Parsers, env: Env, content: string)
    requires env.style == Str("video") && !Truthy(env.shortcode("video", content))
    ensures Switch(host, parsers, env, content) == Switch(host, parsers, env.(style := Str("embed")), content)
  {
    CaseOfLabel(6);
    CaseOfLabel(7);
  }

  /** For an `embed` post, or an audio or video post that fell through to
      it, the value of the first meta key containing `oembed` is the
      result, whatever the content filter would have done. */
  lemma OembedSkipsContentFilter(host: Host, parsers: Parsers, hooks: Hooks, env: Env, content: string, i: nat)
    requires Active(hooks, env)
    requires || env.style == Str("embed")
             || (env.style == Str("video") && !Truthy(env.shortcode("video", content)))
             || (env.style == Str("audio") && !Truthy(env.shortcode("audio", content))
                                          && !Truthy(env.shortcode("video", content)))
    requires i < |env.meta| && Contains(env.meta[i].0, "oembed")
    requires forall j :: 0 <= j < i ==> !Contains(env.meta[j].0, "oembed")
    ensures StyleFormatting(host, parsers, hooks, env, content) == Str(env.meta[i].1)
  {
    CaseOfLabel(5);
    CaseOfLabel(6);
    CaseOfLabel(7);
    FirstOembedAt(env.meta, i);
  }

  /** The first oembed key is the one no earlier key matches. */
  lemma FirstOembedAt(meta: OMap<string>, i: nat)
    requires i < |meta| && Contains(meta[i].0, "oembed")
    requires forall j :: 0 <= j < i ==> !Contains(meta[j].0, "oembed")
    ensures FirstOembed(meta) == Some(i)
  {
  }

  /** A `link-list` post becomes its first list through to the last list
      close of the raw content, and null when the raw content has no list. */
  lemma LinkListFormatting(host: Host, parsers: Parsers, hooks: Hooks, env: Env, content: string)
    requires Active(hooks, env) && env.style == Str("link-list")
    ensures var r := StyleFormatting(host, parsers, hooks, env, content);
            && (!HasGreedy(env.raw, ListPattern()) ==> r == hooks.contentFormatting(Null, env.style))
            && (HasGreedy(env.raw, ListPattern()) ==>
                  exists list :: GreedyFound(env.raw, ListPattern(), list)
                              && r == hooks.contentFormatting(Str(list), env.style))
  {
    CaseOfLabel(2);
    LinkListSpec(env.raw);
    var v := LinkList(env.raw);
    assert StyleFormatting(host, parsers, hooks, env, content) == hooks.contentFormatting(v, env.style);
    if v != Null {
      assert GreedyFound(env.raw, ListPattern(), v.s);
    }
  }

  /** A `link` post becomes the first complete anchor of its raw content,
      and keeps its content when there is none. */
  lemma LinkFormatting(host: Host, parsers: Parsers, hooks: Hooks, env: Env, content: string)
    requires Active(hooks, env) && env.style == Str("link")
    ensures var r := StyleFormatting(host, parsers, hooks, env, content);
            && (!HasAnchor(env.raw, AnchorPattern()) ==> r == hooks.contentFormatting(Str(content), env.style))
            && (HasAnchor(env.raw, AnchorPattern()) ==>
                  exists a :: AnchorFound(env.raw, AnchorPattern(), a) && r == hooks.contentFormatting(Str(a), env.style))
  {
    CaseOfLabel(8);
    LinkSpec(env.raw);
    if HasAnchor(env.raw, AnchorPattern()) {
      AnchorNonEmpty(env.raw);
    }
  }

  /** A `quote` post becomes its first blockquote, or stays as it is when
      it has none. */
  lemma QuoteFormatting(host: Host, parsers: Parsers, hooks: Hooks, env: Env, content: string)
    requires Active(hooks, env) && env.style == Str("quote") && !PhpEmpty(content)
    ensures var r := StyleFormatting(host, parsers, hooks, env, content);
            && (!HasQuote(content, QuotePattern()) ==> r == hooks.contentFormatting(Str(content), env.style))
            && (HasQuote(content, QuotePattern()) ==>
                  exists q :: QuoteFound(content, QuotePattern(), q) && r == hooks.contentFormatting(Str(q), env.style))
  {
    CaseOfLabel(1);
    ContentQuoteSpec(content);
    var q := ContentQuote(content);
    assert StyleFormatting(host, parsers, hooks, env, content) == hooks.contentFormatting(Str(q), env.style);
  }

  /** A `chat` post becomes its transcript's markup, or `array()` when the
      content holds no transcript. */
  lemma ChatFormatting(host: Host, parsers: Parsers, hooks: Hooks, env: Env, content: string)
    requires Active(hooks, env) && env.style == Str("chat")
    ensures var r := StyleFormatting(host, parsers, hooks, env, content);
            && (ContentChat(host, parsers, content) == [] ==> r == hooks.contentFormatting(EmptyArray, env.style))
            && (ContentChat(host, parsers, content) != [] ==>
                  exists m :: Framed(m, ListOpen, ListClose) && r == hooks.contentFormatting(Str(m), env.style))
  {
    CaseOfLabel(0);
    var c := PostStyleChat(host, parsers, content);
    assert Switch(host, parsers, env, content) == Filter(ChatValue(c));
    if c.Html? {
      assert Framed(c.markup, ListOpen, ListClose);
    }
  }

  /** A found anchor is at least two characters long, so never PHP-empty. */
  lemma AnchorNonEmpty(raw: string)
    requires HasAnchor(raw, AnchorPattern())
    ensures Truthy(Link(raw))
  {
    LinkSpec(raw);
    match AnchorSearch(raw, AnchorPattern(), 0)
    case None =>
    case Some(m) =>
      FirstAnchorIs(raw, AnchorPattern(), m);
      assert |Link(raw).s| >= 2;
  }
}
