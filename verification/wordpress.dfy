/** The parts of WordPress the plugin calls but does not define. They are
    passed in explicitly rather than reached as globals: the string helpers
    as an uninterpreted `Host`, and the filter points as `Hooks`. */
module WordPress {
  import opened Php
  import opened OrderedMap

  /** WordPress string helpers, left uninterpreted. */
  datatype Host = Host(
    stripTags: string -> string,
    makeClickable: string -> string,
    sanitizeKey: string -> string,
    sanitizeHtmlClass: string -> string,
    escHtml: string -> string,
    escAttr: string -> string,
    sanitizeTitleWithDashes: string -> string)

  /** Callbacks attached to the plugin's filter points by themes or other
      plugins: `post_style_strings`, `post_style_formatting` and
      `post_style_content_formatting`. */
  datatype Hooks = Hooks(
    styleStrings: OMap<string> -> OMap<string>,
    formattingEnabled: bool -> bool,
    contentFormatting: (Value, Value) -> Value)

  /** A host whose helpers change nothing: content without tags, URLs or
      characters that need escaping. */
  function PlainHost(): Host
  {
    Host(s => s, s => s, s => s, s => s, s => s, s => s, s => s)
  }

  /** No callbacks attached: every filter returns its first argument. */
  function NoHooks(): Hooks
  {
    Hooks(t => t, b => b, (c, style) => c)
  }
}
