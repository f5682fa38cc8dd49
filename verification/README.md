# Post Styles, modelled in Dafny

The post-styles WordPress plugin does two things. It gives each post one "style": a term of the `post_style` taxonomy such as aside, quote, chat, link or gallery. On listing pages it then replaces the post's content with the part that the style is about.

This project models the plugin's classification and extraction core as pure Dafny functions over immutable data:

- **Chat dialects** (`chat_dialects.dfy`): the ordered registry of chat dialects. It holds the two built-in newline matchers, written out by hand: IM (`^([^:]+):`) and Skype (`(\[.+?\])\s([^:]+):`, leftmost, then lazy).
- **Chat parser** (`chat_parser.dfy`): `get_content_chat`. It is a single pass over the lines, written as a fold over a `Walk` record. The record holds the author, time, message fragments, the open stanza, the finished stanzas and the found and stopped flags.
- **Chat rendering** (`chat_render.dfy`): `get_the_post_style_chat`, which renders a definition list.
- **Worked transcripts** (`chat_scenarios.dfy`):
  - the two-speaker example documented on `get_content_chat`, stated for every pair of such speakers;
  - a two-line Skype log, for every pair of such speakers and for one concrete log;
  - rendered chat markup with its tags stripped, which parses back with every message lost;
  - a row closed by the next speaker, whose message is joined untrimmed;
  - prose without a colon.
- **Content extractors** (`extractors.dfy`): `get_content_quote` and the link-list, iframe and link matches of `style_formatting`. They are written as leftmost-match scanners. Each scanner is proved sound and complete against a shape predicate that transcribes its regular expression.
- **Style registry** (`style_registry.dfy`): `get_post_style_strings`, `get_post_style_slugs` and `get_post_style_string`.
- **Style assignment** (`style_assignment.dfy`):
  - `get_post_style`, `set_post_style` and `has_post_style`;
  - `_post_style_request`;
  - `my_class_names`.
- **Formatting** (`formatting.dfy`): `style_formatting`, the `the_content` filter. Everything it reads besides its argument is an explicit input.

Supporting modules:

- `php.dfy` defines the PHP built-ins the plugin relies on: `empty()`, `trim()`, `explode`/`implode`, `str_replace` with an empty replacement, and ASCII case-insensitive matching.
- `ordered_map.dfy` defines PHP arrays with string keys.
- `wordpress.dfy` passes WordPress's helpers and filter points in as parameters.

Behaviour worth knowing:

- **Skype timestamp.** The Skype dialect's group 1 keeps its square brackets, so a Skype row's time is `[10:02]`.
- **IM detection.** The IM matcher accepts a text exactly when the text has a colon and its first colon is not at index 0.
- **Empty link list.** The link-list style hands `null` to the content filter when there is no list.
- **Posts without a style.** A post of a supporting type with no style term is classed and formatted by its post type (`post-style-post`). `get_post_style` returns `get_post_type()` there.
- **Message trimming.** Only the last row's message is trimmed. A row closed by a blank line or by the next speaker joins its fragments with spaces as they are.
- **Rendered markup.** The chat markup puts each message on a line of its own without a colon. With its tags stripped, it parses back to the authors with empty messages.

## Model

| member | source | states |
|---|---|---|
| ChatDialects.AddChatDetectionStyle | class-post-styles.php:492-499 | the new dialect comes first; re-registering a name replaces its old entry; every other name keeps its dialect; keys stay distinct |
| ChatDialects.DefaultParsers | class-post-styles.php:30-31 | after the constructor the dialects are Skype then IM, so Skype is tried first |
| ChatDialects.ImNewline | class-post-styles.php:30 | the IM regex matches exactly when the text has a colon and does not start with one; group 1 is the non-empty, colon-free text before the first colon, the whole match is group 1 plus the colon and is a prefix of the text, and there is no group 2 |
| ChatDialects.SkypeNewline | class-post-styles.php:31 | no match exactly when no position has the Skype shape; group 1 is a bracketed timestamp, brackets included; group 2 is a non-empty, colon-free author |
| ChatDialects.SkypeNewlineIs | class-post-styles.php:31 | the match reported is the leftmost one with the shortest bracket (`.+?` is lazy), with its three groups sliced from the text |
| ChatDialects.SkypeNeedsBracket | class-post-styles.php:31 | text without `[` never matches the Skype dialect |
| ChatParser.FirstParser | class-post-styles.php:541-548 | the dialect chosen is the first registered one whose newline regex matches the whole trimmed text; none is chosen only when no dialect matches |
| ChatParser.ContentChat | class-post-styles.php:534-551 | empty stripped and trimmed text, or text no dialect recognises, gives no transcript; every emitted row has a non-empty author |
| ChatParser.ContentChatProvenance | class-post-styles.php:534-625 | a non-empty transcript comes from non-empty text and a selected dialect; every row's author and time come from a speaker line of that dialect |
| ChatParser.ParseLines | class-post-styles.php:553-625 | every row of the walk names an author that a speaker line of the input introduced, with that line's time |
| ChatParser.Step | class-post-styles.php:560-612 | one pass of the loop body: the closed stanzas either stay as they were or gain the pending turn closed as a stanza; once a speaker line has been seen it stays seen; the walk breaks off only before a further line |
| ChatParser.StepDropsUnmatched | class-post-styles.php:585-587 | a line the newline regex rejects is dropped without trace, unless it is the blank line that closes a stanza |
| ChatParser.StepNewSpeaker | class-post-styles.php:589-608 | a line that opens a turn: closes the pending speaker's row; with a group 2, time is group 1 and author is group 2, otherwise time is empty and author is group 1; the new message starts with the trimmed line with every occurrence of the whole match removed |
| ChatParser.StepContinuation | class-post-styles.php:593-611 | a matched line that does not open a turn leaves the speaker alone and appends the trimmed line, when it has a non-space character |
| ChatParser.StepBlankLine | class-post-styles.php:566-583 | after the first speaker line, a blank line closes the stanza with the pending row and resets the turn; the walk stops exactly when the next raw line is non-empty and fails the delimiter regex |
| ChatParser.StepLocal | class-post-styles.php:579-595 | a step reads only the current line and its raw neighbours |
| ChatParser.WalkIgnoresTail | class-post-styles.php:560-612 | once the walk breaks off, lines after the break change nothing |
| ChatParser.TrailingCommentaryIgnored | class-post-styles.php:579-580 | commentary after a transcript that breaks off does not change the parse |
| ChatRender.TimeElement | class-post-styles.php:643-645 | the `<time>` element is absent exactly when the row's time is PHP-empty |
| ChatRender.RenderStanzas | class-post-styles.php:639-661 | no stanzas give `array()`; otherwise the markup is the list tags around the rows of all stanzas in order |
| ChatRender.PostStyleChat | class-post-styles.php:636-662 | `array()` exactly when the parser finds no transcript; otherwise markup opening with `<dl class="chat">` and closing with `</dl><!-- .chat -->` |
| ChatRender.StanzasFlatten | class-post-styles.php:641-657 | stanza boundaries leave no trace in the markup |
| ChatRender.EmptyStanzasInvisible | class-post-styles.php:641-657 | the empty stanzas that consecutive blank lines push render as nothing |
| ChatRender.RowMarkup | class-post-styles.php:647-655 | a row's markup opens with the `<dt class="chat-author chat-author-` prefix and closes with `</dd>` and the template's trailing line break and tabs |
| ChatRender.RowShape | class-post-styles.php:643-655 | a row's markup opens with the author slot and ends with the row end; the name slot directly follows the author's class exactly when the row has no time |
| ChatRender.SingleRow | class-post-styles.php:641-661 | a one-row transcript renders as exactly that row between the list tags |
| ChatScenarios.ImSpeakerLine | class-post-styles.php:564-608 | `name: message` is left alone by `trim`, read by IM with the name as group 1, and leaves exactly the message once the match is removed |
| ChatScenarios.TwoSpeakers | class-post-styles.php:508-527 | two IM speaker lines give one stanza of two rows, without times, each message recovered exactly |
| ChatScenarios.ScottAndHelen | class-post-styles.php:508-527 | the documented example: "Scott: Hey, let's chat!" and "Helen: No." give rows ('', Scott, "Hey, let's chat!") and ('', Helen, "No.") |
| ChatScenarios.TwoSkypeSpeakers | class-post-styles.php:31 | two Skype speaker lines `[t] a: x` are parsed by the Skype dialect, tried first, into one stanza of two rows whose time keeps its brackets, whose author is group 2 and whose message is the text after the match |
| ChatScenarios.AliceAndBob | class-post-styles.php:560-612 | the log "[10:02] Alice: hi" / "[10:03] Bob: hey" gives rows ("[10:02]", Alice, hi) and ("[10:03]", Bob, hey) in one stanza |
| ChatScenarios.RenderedMessagesLost | class-post-styles.php:647-649 | the tag-stripped markup of two timeless rows parses back to the two authors with empty messages: the message lines have no colon and are dropped (:585-587) |
| ChatScenarios.MidWalkMessageUntrimmed | class-post-styles.php:597-604 | a bare `a:` cue, then a remark `w:rest` whose `w` holds whitespace, then the next speaker: the row closed by that speaker gives `a` the message " " + `w:rest`, the leading space kept |
| ChatScenarios.LastMessageTrimmed | class-post-styles.php:614-619 | the same cue and remark at the end of the text give `a` the trimmed message `w:rest` |
| ChatScenarios.ScottsRemark | class-post-styles.php:597-604 | "Scott:", "well I said: ok", "Helen: no" give Scott the message " well I said: ok" |
| ChatScenarios.ProseIsNoChat | class-post-styles.php:541-551 | content without a colon is no chat under the built-in dialects |
| Extractors.QuoteAtSound | class-post-styles.php:680 | a quote match the scanner reports has the regex's shape |
| Extractors.QuoteAtComplete | class-post-styles.php:680 | when the scanner reports no quote at a position, none starts there |
| Extractors.FirstQuoteSpec | class-post-styles.php:680-684 | with no blockquote the text comes back whole; otherwise the result is the leftmost match, ending at the first close after the opening tag's `>` and at least one character past it |
| Extractors.FirstQuoteIdempotent | class-post-styles.php:680-684 | taking the first blockquote of a first blockquote changes nothing |
| Extractors.ContentQuote | class-post-styles.php:677-678 | PHP-empty content gives the empty string |
| Extractors.ContentQuoteSpec | class-post-styles.php:676-685 | non-empty content without a blockquote is returned unchanged; otherwise the result is its leftmost blockquote, in any letter case |
| Extractors.ContentQuoteIdempotent | class-post-styles.php:676-685 | applying `get_content_quote` twice is applying it once |
| Extractors.GreedyAtSound | class-post-styles.php:423 | a greedy match has the regex's shape and ends at the last close of the text |
| Extractors.GreedyAtComplete | class-post-styles.php:423 | when the scanner reports no greedy match at a position, none starts there |
| Extractors.GreedyExtractSpec | class-post-styles.php:423-424 | null exactly when there is no match; otherwise the leftmost open through the last close |
| Extractors.GreedyIdempotent | class-post-styles.php:423 | a greedy match, searched again, is found whole |
| Extractors.LinkList | class-post-styles.php:423-424 | the link-list match is null or a string no longer than the raw content |
| Extractors.LinkListSpec | class-post-styles.php:423-424 | the link list is null exactly when the raw content has no `<ul`/`<ol` with a later `</ul>`/`</ol>`; otherwise it runs from the first list open to the last list close |
| Extractors.LinkListIdempotent | class-post-styles.php:423-424 | extracting the link list from an extracted link list changes nothing |
| Extractors.Iframe | class-post-styles.php:453-456 | the iframe match is null or a string no longer than the raw content |
| Extractors.IframeSpec | class-post-styles.php:453-456 | the iframe match is null exactly when there is none; otherwise it runs from the first `<iframe` to the last `</iframe>` |
| Extractors.IframeIdempotent | class-post-styles.php:453-456 | extracting the iframe match again changes nothing |
| Extractors.AnchorAtSound | class-post-styles.php:459 | an anchor match the scanner reports has the regex's shape |
| Extractors.AnchorAtComplete | class-post-styles.php:459 | when the scanner reports no anchor at a position, none starts there |
| Extractors.FirstAnchorSpec | class-post-styles.php:459-461 | null exactly when there is no anchor; otherwise the leftmost `<a…>text</a>` without `>` in the tag or `<` in the text |
| Extractors.FirstAnchorIdempotent | class-post-styles.php:459-461 | an anchor match, searched again, is found whole |
| Extractors.Link | class-post-styles.php:459-461 | the link match is null or a string no longer than the raw content |
| Extractors.LinkSpec | class-post-styles.php:459-461 | the link is null exactly when the raw content has no complete anchor; otherwise the leftmost one |
| Extractors.LinkIdempotent | class-post-styles.php:459-461 | extracting the link from an extracted link changes nothing |
| StyleRegistry.PostStyleStrings | class-post-styles.php:256-273 | `standard` is first with label "Standard", overriding any filter entry for it; every other key reads as the filter left it; keys stay distinct |
| StyleRegistry.RegisteredSpec | class-post-styles.php:271-272 | a registered slug is `standard` or a slug the filter kept or added |
| StyleRegistry.PostStyleSlugs | class-post-styles.php:282-285 | one entry per registered style, in registry order, each slug mapped to itself, `standard` first |
| StyleRegistry.SlugsSpec | class-post-styles.php:282-285 | the slug map maps exactly the registered slugs, `standard` included, to themselves, and its values are exactly the registered slugs |
| StyleRegistry.PostStyleString | class-post-styles.php:294-300 | a falsy slug gives "Standard"; `standard` gives "Standard"; another registered slug gives the filter's label; an unknown slug gives '' |
| StyleRegistry.DefaultRegistry | class-post-styles.php:257-272 | without callbacks the registry is `standard` then the twelve built-in styles, in declaration order |
| StyleRegistry.BuiltInSlugs | class-post-styles.php:257-270 | the built-in slugs are distinct, none is `standard`, and none is PHP-empty |
| StyleRegistry.DefaultLabels | class-post-styles.php:294-300 | without callbacks every built-in slug reads back its own label (`link-list` reads "List") |
| StyleAssignment.GetPostStyle | class-post-styles.php:190-204 | no post gives false; an unsupported type or no style term gives `get_post_type()`; otherwise a string no longer than the first term's slug, equal to it when it has no prefix, and equal to `k` for `post-style-k` with a prefix-free `k` |
| StyleAssignment.SetPostStyle | class-post-styles.php:234-249 | a missing post gives `invalid_post`; an empty style passes through; otherwise the sanitized key becomes `post-style-k` exactly when it is registered and not `standard`, else '' |
| StyleAssignment.StyleRoundTrip | class-post-styles.php:240-246 | a registered, prefix-free style stored by `set_post_style` is read back by `get_post_style` as its sanitized key |
| StyleAssignment.StandardClears | class-post-styles.php:240-246 | assigning `standard` or an unregistered style writes '', and the unstyled post then reads as its post type |
| StyleAssignment.NestedPrefixCollapses | class-post-styles.php:203 | `str_replace` removes the prefix everywhere, so the stored slug `post-style-post-style-x` reads back as `x` |
| StyleAssignment.PrefixedStyles | class-post-styles.php:215-222 | a falsy argument asks for no terms; otherwise each style, sanitized and prefixed, in order |
| StyleAssignment.HasPostStyle | class-post-styles.php:215-225 | a missing post, or a post with no style term, has no style; asked for no particular style, a post has one exactly when it has a style term |
| StyleAssignment.HasPostStyleGiven | class-post-styles.php:211-225 | asked for one or more styles, a post has a style exactly when one of them, sanitized and prefixed with `post-style-`, is among its terms |
| StyleAssignment.AssignedStyleIsFound | class-post-styles.php:215-225 | after a registered style is assigned, asking for a style by name finds it exactly when the name sanitizes to the assigned key, and asking for no style finds a style |
| StyleAssignment.PostStyleRequest | class-post-styles.php:320-330 | a request without `post_style` is returned as is; a styled one gains at most one variable, and none in the admin |
| StyleAssignment.PrefixStyleVarSpec | class-post-styles.php:323-325 | the style variable becomes `post-style-s` for a registered `s` and stays `s` otherwise; no other variable or position changes |
| StyleAssignment.RequestStyle | class-post-styles.php:320-325 | in the filtered request a registered style `s` is asked for as `post-style-s`, an unknown one as given |
| StyleAssignment.RequestType | class-post-styles.php:326-328 | outside the admin a styled request's post type becomes the taxonomy's object types; in the admin it is unchanged |
| StyleAssignment.RequestRest | class-post-styles.php:320-330 | every other query variable keeps its value, and the existing variables keep their order |
| StyleAssignment.StandardRequest | class-post-styles.php:323-325 | `standard` is registered, so a request for it becomes `post-style-standard` |
| StyleAssignment.RequestWithoutStyle | class-post-styles.php:321-322 | a request without a `post_style` value is returned unchanged |
| StyleAssignment.ClassNames | class-post-styles.php:73-89 | classes are only ever appended; with no post, an unsupported type or a single view the list is unchanged |
| StyleAssignment.StyledPostClasses | class-post-styles.php:76-80 | a post stored as `post-style-k` gains `post-style-k` and `post-format-k`, with `k` passed through `sanitize_html_class` |
| StyleAssignment.UnstyledPostClasses | class-post-styles.php:76-83 | a supported post without a style is classed by its post type; the combined `standard` class appears only for a falsy type |
| Formatting.CaseOfLabel | class-post-styles.php:415-462 | each labelled style selects its own case of the switch |
| Formatting.CaseOfOther | class-post-styles.php:463-466 | exactly the values that are not one of the nine case labels fall to the default |
| Formatting.ChatValue | class-post-styles.php:639-640 | the chat tag's value is `array()` exactly when there is no transcript |
| Formatting.FirstOembed | class-post-styles.php:448-451 | none exactly when no meta key contains `oembed`; otherwise the first such key |
| Formatting.Switch | class-post-styles.php:415-467 | a style without a case passes the content on unchanged; only audio, video and embed can return early |
| Formatting.StyleFormatting | class-post-styles.php:407-472 | on a single view, or with formatting switched off, the content comes back unchanged |
| Formatting.UnhandledStyleKeepsContent | class-post-styles.php:463-468 | image, aside, no-photo, standard, post types and false hand the unchanged content to the content filter, so without callbacks the content comes out as it went in |
| Formatting.AudioFallsToVideo | class-post-styles.php:435-446 | an audio post without an audio shortcode is switched like a video post |
| Formatting.VideoFallsToEmbed | class-post-styles.php:441-452 | a video post without a video shortcode is switched like an embed post |
| Formatting.OembedSkipsContentFilter | class-post-styles.php:435-451 | for embed, and for audio or video that fell through, the first oembed meta value is the result, bypassing the content filter |
| Formatting.LinkListFormatting | class-post-styles.php:422-425 | a link-list post hands the content filter null when the raw content has no list; otherwise the greedy list match |
| Formatting.LinkFormatting | class-post-styles.php:458-461 | a link post hands the content filter its first anchor, or its unchanged content when there is none |
| Formatting.QuoteFormatting | class-post-styles.php:419-421 | a quote post hands the content filter its first blockquote, or the whole content when there is none |
| Formatting.ChatFormatting | class-post-styles.php:416-418 | a chat post hands the content filter `array()` without a transcript, otherwise markup framed by the list tags |
| Formatting.AnchorNonEmpty | class-post-styles.php:460 | a found anchor is never PHP-empty, so the `! empty` guard on the link keeps every match |
| OrderedMap.PrependSpec | class-post-styles.php:498 | `array(k => v) + m` puts `k` first with `v`, leaves every other key's value and order alone, and keeps keys distinct |
| OrderedMap.PutGet | class-post-styles.php:325-328 | after `$m[k] = v`, `k` reads `v` and every other key reads as before |
| OrderedMap.PutKeys | class-post-styles.php:325-328 | an assignment keeps the key order and appends a new key at the end |
| OrderedMap.PutUnique | class-post-styles.php:325-328 | an assignment keeps keys distinct |
| OrderedMap.GetUnique | class-post-styles.php:297-299 | in an array with distinct keys each key reads back its stored value |
| Php.StrRemoveIdentity | class-post-styles.php:608 | `str_replace(needle, '', s)` returns `s` exactly when the needle does not occur in it |
| Php.RemoveLeadingOnce | class-post-styles.php:203 | removing a leading needle that does not recur leaves exactly the rest |
| Php.ExplodeJoin | class-post-styles.php:556 | exploding on a separator loses nothing: joining the parts gives the text back |
| Php.JoinExplode | class-post-styles.php:556 | parts without the separator are recovered by exploding their join |
| Php.TrimIdempotent | class-post-styles.php:564 | trimming twice is trimming once |
| Php.TrimEnds | class-post-styles.php:564 | a trimmed string neither starts nor ends with a stripped character |

## Left out

- mcninja-post-styles.php: the singleton wrappers and plugin header. Its `set_post_style` wrapper passes no arguments.
- Admin UI and settings are not modelled: `settings_api_init`, the settings checkbox, the meta box and `stylesbox`, `enqueue` and `load_plugin_textdomain`. They only print HTML or register callbacks.
- `post_style_meta_box_save_postdata` is not modelled. It depends on nonces, `$_POST` and capability checks; it only calls `set_post_style`, which is modelled.
- Persistence is not modelled: `create_style_taxonomies`, `wp_set_post_terms`, `get_the_terms` and `get_term_by`.
  - A post's style terms are an input list (`Post.styleTerms`).
  - `set_post_style` is modelled up to the value it hands to `wp_set_post_terms`.
- `get_post_style_link`, `_post_style_link` and the term-name filters `_post_style_get_term`, `_post_style_get_terms` and `_post_style_wp_get_object_terms` are not modelled. They rewrite URLs and term names through `$wp_rewrite` and the term API.
- `get_style_shortcode` is an oracle from shortcode name and content to a PHP value (`Env.shortcode`). Its body needs WordPress's shortcode regex and a dynamic `call_user_func`. It also passes the attributes of the first shortcode of any kind, not of the requested one (class-post-styles.php:723).
- `excerpt_style_formatting` is not modelled. It needs `do_shortcode` and a persisted `has_post_style`.
- In `style_formatting`, the galleries (`get_post_galleries`), the post meta (`get_post_custom`), `is_single`, the option and `get_post_style()` are inputs (`Env`).
  - Meta values are reduced to their first entry, which is the only one the plugin reads.
- `get_the_post_style_quote`, `the_post_style_quote` and `wpautop` are not modelled: output helpers around `get_content_quote`.
- The WordPress string helpers are uninterpreted functions of a `Host` record: `strip_tags`, `make_clickable`, `sanitize_key`, `sanitize_html_class`, `esc_html`, `esc_attr` and `sanitize_title_with_dashes`.
  - Filters attached with `apply_filters` are functions of a `Hooks` record.
  - Translation with `_x` and `__` is the identity.
- PHP's conversion of numeric-string array keys to integers is not modelled, nor is loose `==` between two numeric strings. Every case label and built-in slug is non-numeric. A filter-registered numeric slug could behave differently in `in_array` and in `isset($slugs[…])`.
- Non-string arguments are not modelled: an array style passed to `set_post_style`, or an array `post_style` query variable.
- StyleAssignment.HasPostStyle: `has_term` is modelled as matching the post's style term slugs only; matching by term ID or name is not modelled. The post is an explicit `Option<Post>`, where `None` stands for a missing post, for which `has_term` returns false; the fallback to the loop's current post is not modelled.
- The PCRE engine is not modelled. The two chat dialects and the four extractor patterns are hand-coded scanners proved equivalent to shape predicates. Their caseless matching is ASCII case folding, as in PCRE's non-UTF mode.
- ChatRender.PostStyleChat: no round trip from markup back to transcript holds. The template puts each message on its own line without a colon, so stripping the tags and parsing again loses every message (ChatScenarios.RenderedMessagesLost).
- Strings are sequences of Unicode characters, while PHP works on bytes. This makes no difference here, because every pattern, trim character and separator the plugin uses is ASCII.
- A failing `preg_match` or `preg_match_all` is not modelled: past PCRE's backtrack or recursion limit they return false. `get_content_quote` (class-post-styles.php:680) would then return the content unchanged. `style_formatting` (class-post-styles.php:423, 453, 459) would be left with an empty `$matches`.
- Formatting.StyleFormatting: the gallery case is modelled only as "first gallery if any". Gallery extraction is WordPress's.
