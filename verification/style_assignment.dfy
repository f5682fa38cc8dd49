/** How a post's style is stored, read back, queried and shown: the
    `post_style` taxonomy keeps one term per style whose slug carries the
    `post-style-` prefix, and the plugin adds or strips that prefix at each
    boundary. */
module StyleAssignment {
  import opened Php
  import opened OrderedMap
  import opened WordPress
  import opened StyleRegistry

  /** The prefix of every style term's slug. */
  const StylePrefix: string := "post-style-"

  /** A post as the plugin reads it: its type, whether that type supports
      post styles, and the slugs of its `post_style` terms in the order
      `get_the_terms` lists them. */
  datatype Post = Post(postType: string, supportsStyles: bool, styleTerms: seq<string>)

  /** `get_post_style($post)`: false without a post; the current post type
      when styles are unsupported or none is set (so a plain post reads as
      its type, not as `standard`); otherwise the first term's slug with the
      prefix removed everywhere. `currentType` is what `get_post_type()`
      without an argument returns: the type of the global post, or false. */
  function GetPostStyle(post: Option<Post>, currentType: Value): (r: Value)
    ensures post.None? ==> r == False
    ensures post.Some? && (!post.value.supportsStyles || post.value.styleTerms == []) ==> r == currentType
    ensures post.Some? && post.value.supportsStyles && post.value.styleTerms != [] ==>
              var t := post.value.styleTerms[0];
              && r.Str? && |r.s| <= |t|
              && (!Contains(t, StylePrefix) ==> r.s == t)
              && (forall k :: t == StylePrefix + k && !Contains(k, StylePrefix) ==> r.s == k)
  {
    match post
    case None => False
    case Some(p) =>
      if !p.supportsStyles || p.styleTerms == [] then currentType
      else
        var t := p.styleTerms[0];
        StrRemoveIdentity(t, StylePrefix);
        forall k | t == StylePrefix + k && !Contains(k, StylePrefix)
          ensures StrRemove(t, StylePrefix) == k
        {
          RemoveLeadingOnce(StylePrefix, k);
        }
        Str(StrRemove(t, StylePrefix))
  }

  /** What `set_post_style` hands to `wp_set_post_terms`, or its error. */
  datatype Assignment = InvalidPost | Terms(style: Value)

  /** `set_post_style`: an empty style passes through untouched (clearing
      the post's styles); any other is sanitized, and becomes the prefixed
      term slug when it names a registered style other than `standard`,
      else the empty string. */
  function SetPostStyle(host: Host, hooks: Hooks, post: Option<Post>, style: Value): (r: Assignment)
    ensures post.None? <==> r == InvalidPost
    ensures post.Some? && !Truthy(style) ==> r == Terms(style)
    ensures post.Some? && Truthy(style) ==>
              var k := host.sanitizeKey(style.s);
              r == Terms(Str(if k != Standard && HasKey(Filtered(hooks), k) then StylePrefix + k else ""))
  {
    if post.None? then InvalidPost
    else if !Truthy(style) then Terms(style)
    else
      var key := host.sanitizeKey(style.s);
      SlugsSpec(hooks, key);
      RegisteredSpec(hooks, key);
      if key == Standard || key !in Values(PostStyleSlugs(hooks)) then Terms(Str(""))
      else Terms(Str(StylePrefix + key))
  }

  /** A style assigned to a post is the style read back from it: the term
      slug `set_post_style` produces, stored as the post's first style
      term, is stripped back to the sanitized key by `get_post_style`, for
      every registered key that does not itself contain the prefix. */
  lemma StyleRoundTrip(host: Host, hooks: Hooks, post: Post, style: string, currentType: Value)
    requires post.supportsStyles && !PhpEmpty(style)
    requires var k := host.sanitizeKey(style);
             k != Standard && HasKey(Filtered(hooks), k) && !Contains(k, StylePrefix)
    ensures var k := host.sanitizeKey(style);
            && SetPostStyle(host, hooks, Some(post), Str(style)) == Terms(Str(StylePrefix + k))
            && GetPostStyle(Some(post.(styleTerms := [StylePrefix + k])), currentType) == Str(k)
  {
  }

  /** Assigning `standard`, or a style nobody registered, hands the empty
      string to `wp_set_post_terms`, which leaves the post without a style
      term; `get_post_style` then falls back to the post type. */
  lemma StandardClears(host: Host, hooks: Hooks, post: Post, style: string, currentType: Value)
    requires post.supportsStyles && !PhpEmpty(style)
    requires var k := host.sanitizeKey(style); k == Standard || !HasKey(Filtered(hooks), k)
    ensures SetPostStyle(host, hooks, Some(post), Str(style)) == Terms(Str(""))
    ensures GetPostStyle(Some(post.(styleTerms := [])), currentType) == currentType
  {
  }

  /** A key shorter than the prefix cannot contain it, so every built-in
      style survives the round trip. */
  lemma ShortKeyPrefixFree(k: string)
    requires |k| < |StylePrefix|
    ensures !Contains(k, StylePrefix)
  {
  }

  /** The round trip needs the key to be free of the prefix: a registered
      key `post-style-x` is stored as `post-style-post-style-x` and read
      back as `x`, because the prefix is removed everywhere. */
  lemma NestedPrefixCollapses(post: Post, currentType: Value)
    requires post.supportsStyles && post.styleTerms == [StylePrefix + StylePrefix + "x"]
    ensures GetPostStyle(Some(post), currentType) == Str("x")
  {
    var t := StylePrefix + StylePrefix + "x";
    assert t[..|StylePrefix|] == StylePrefix && t[|StylePrefix|..] == StylePrefix + "x";
    ShortKeyPrefixFree("x");
    RemoveLeadingOnce(StylePrefix, "x");
  }

  /** The `$style` argument of `has_post_style`: one style, or a list. */
  datatype StyleQuery = OneStyle(name: string) | StyleList(names: seq<string>)

  /** PHP truthiness of the argument: a non-empty string or array. */
  predicate QueryGiven(q: StyleQuery)
  {
    match q
    case OneStyle(n) => !PhpEmpty(n)
    case StyleList(ns) => ns != []
  }

  /** `(array) $style`: a single style becomes a one-element list. */
  function QueryItems(q: StyleQuery): seq<string>
  {
    match q
    case OneStyle(n) => [n]
    case StyleList(ns) => ns
  }

  /** The term slugs `has_post_style` asks about: nothing for an absent
      argument, else each style sanitized and prefixed, in order. */
  function PrefixedStyles(host: Host, q: StyleQuery): (r: seq<string>)
    ensures QueryGiven(q) <==> r != []
    ensures QueryGiven(q) ==> |r| == |QueryItems(q)|
    ensures forall i :: 0 <= i < |r| ==> r[i] == StylePrefix + host.sanitizeKey(QueryItems(q)[i])
  {
    if QueryGiven(q) then
      var items := QueryItems(q);
      seq(|items|, i requires 0 <= i < |items| => StylePrefix + host.sanitizeKey(items[i]))
    else []
  }

  /** `has_post_style`, with `has_term` matching the post's style terms by
      slug: no post has no style; without a style argument, whether the post
      has any style; with one, whether it has one of the prefixed styles. */
  predicate HasPostStyle(host: Host, q: StyleQuery, post: Option<Post>)
    ensures HasPostStyle(host, q, post) ==> post.Some? && post.value.styleTerms != []
    ensures post.Some? && !QueryGiven(q) ==> (HasPostStyle(host, q, post) <==> post.value.styleTerms != [])
  {
    match post
    case None => false
    case Some(p) =>
      var wanted := PrefixedStyles(host, q);
      if wanted == [] then p.styleTerms != []
      else exists i :: 0 <= i < |wanted| && wanted[i] in p.styleTerms
  }

  /** With a style argument, a post has a style exactly when one of the
      asked styles, sanitized and prefixed, is among its terms. */
  lemma HasPostStyleGiven(host: Host, q: StyleQuery, post: Post)
    requires QueryGiven(q)
    ensures HasPostStyle(host, q, Some(post))
        <==> exists s :: s in QueryItems(q) && StylePrefix + host.sanitizeKey(s) in post.styleTerms
  {
    var items, wanted := QueryItems(q), PrefixedStyles(host, q);
    if HasPostStyle(host, q, Some(post)) {
      var i :| 0 <= i < |wanted| && wanted[i] in post.styleTerms;
      assert items[i] in items;
    }
    if s :| s in items && StylePrefix + host.sanitizeKey(s) in post.styleTerms {
      var i :| 0 <= i < |items| && items[i] == s;
      assert wanted[i] in post.styleTerms;
    }
  }

  /** `has_post_style` asks for exactly the terms `set_post_style` writes:
      after a registered style is assigned, asking for a style by name finds
      it exactly when that name sanitizes to the assigned key, and asking
      for no style finds that the post has one. */
  lemma AssignedStyleIsFound(host: Host, hooks: Hooks, post: Post, style: string, ask: string)
    requires !PhpEmpty(style) && !PhpEmpty(ask)
    requires var k := host.sanitizeKey(style); k != Standard && HasKey(Filtered(hooks), k)
    ensures var r := SetPostStyle(host, hooks, Some(post), Str(style));
            var stored := Some(post.(styleTerms := [r.style.s]));
            && (HasPostStyle(host, OneStyle(ask), stored) <==> host.sanitizeKey(ask) == host.sanitizeKey(style))
            && HasPostStyle(host, OneStyle(""), stored)
  {
    var k := host.sanitizeKey(style);
    var r := SetPostStyle(host, hooks, Some(post), Str(style));
    assert r.style.s == StylePrefix + k;
    assert PrefixedStyles(host, OneStyle(ask))[0] == StylePrefix + host.sanitizeKey(ask);
    PrefixedKeyInjective(host.sanitizeKey(ask), k);
  }

  lemma PrefixedKeyInjective(a: string, b: string)
    ensures StylePrefix + a == StylePrefix + b <==> a == b
  {
    if StylePrefix + a == StylePrefix + b {
      assert a == (StylePrefix + a)[|StylePrefix|..];
    }
  }

  /** A value of the request's query variables: a string, a list of post
      types, or null. */
  datatype QueryVar = Text(s: string) | TypeList(types: seq<string>) | NullVar

  /** `isset($qvs[$k])`: present and not null. */
  predicate Isset(qvs: OMap<QueryVar>, k: string)
  {
    Get(qvs, k).Some? && !Get(qvs, k).value.NullVar?
  }

  /** `_post_style_request`: a `post_style` query naming a registered style
      (`standard` included) is rewritten to the prefixed term slug, and
      outside the admin the query is widened to the taxonomy's post types
      (`objectTypes`). Requests without the variable pass untouched. */
  function PostStyleRequest(hooks: Hooks, qvs: OMap<QueryVar>, isAdmin: bool, objectTypes: seq<string>): (r: OMap<QueryVar>)
    ensures !Isset(qvs, "post_style") ==> r == qvs
    ensures |qvs| <= |r| <= |qvs| + 1
    ensures isAdmin ==> |r| == |qvs|
  {
    if !Isset(qvs, "post_style") then qvs
    else
      var q1 := PrefixStyleVar(hooks, qvs);
      if !isAdmin then Put(q1, "post_type", TypeList(objectTypes)) else q1
  }

  /** The style variable rewritten to its term slug when it names a
      registered style. */
  function PrefixStyleVar(hooks: Hooks, qvs: OMap<QueryVar>): OMap<QueryVar>
  {
    var v: Option<QueryVar> := Get(qvs, "post_style");
    if v.Some? && v.value.Text? && Get(PostStyleSlugs(hooks), v.value.s).Some? then
      Put(qvs, "post_style", Text(StylePrefix + Get(PostStyleSlugs(hooks), v.value.s).value))
    else qvs
  }

  /** The style variable after the rewrite: `post-style-s` for a registered
      style `s`, `s` itself for an unknown one; no other variable changes,
      and the variables keep their order. */
  lemma PrefixStyleVarSpec(hooks: Hooks, qvs: OMap<QueryVar>, s: string, j: string)
    requires Get(qvs, "post_style") == Some(Text(s))
    requires j != "post_style"
    ensures Get(PrefixStyleVar(hooks, qvs), "post_style")
         == Some(Text(if HasKey(PostStyleStrings(hooks), s) then StylePrefix + s else s))
    ensures Get(PrefixStyleVar(hooks, qvs), j) == Get(qvs, j)
    ensures Keys(PrefixStyleVar(hooks, qvs)) == Keys(qvs)
  {
    SlugsSpec(hooks, s);
    if HasKey(PostStyleStrings(hooks), s) {
      var v := Text(StylePrefix + s);
      PutGet(qvs, "post_style", v, "post_style");
      PutGet(qvs, "post_style", v, j);
      PutKeys(qvs, "post_style", v);
    }
  }

  /** In the rewritten request a registered style `s` is asked for as the
      term `post-style-s`, an unknown one as given. */
  lemma RequestStyle(hooks: Hooks, qvs: OMap<QueryVar>, isAdmin: bool, objectTypes: seq<string>, s: string)
    requires Get(qvs, "post_style") == Some(Text(s))
    ensures Get(PostStyleRequest(hooks, qvs, isAdmin, objectTypes), "post_style")
         == Some(Text(if HasKey(PostStyleStrings(hooks), s) then StylePrefix + s else s))
  {
    var q1 := PrefixStyleVar(hooks, qvs);
    PrefixStyleVarSpec(hooks, qvs, s, "post_type");
    if !isAdmin {
      PutGet(q1, "post_type", TypeList(objectTypes), "post_style");
    }
  }

  /** Outside the admin a styled request asks for the taxonomy's object
      types; in the admin its post type stays as it was. */
  lemma RequestType(hooks: Hooks, qvs: OMap<QueryVar>, isAdmin: bool, objectTypes: seq<string>, s: string)
    requires Get(qvs, "post_style") == Some(Text(s))
    ensures Get(PostStyleRequest(hooks, qvs, isAdmin, objectTypes), "post_type")
         == if isAdmin then Get(qvs, "post_type") else Some(TypeList(objectTypes))
  {
    var q1 := PrefixStyleVar(hooks, qvs);
    PrefixStyleVarSpec(hooks, qvs, s, "post_type");
    if !isAdmin {
      PutGet(q1, "post_type", TypeList(objectTypes), "post_type");
    }
  }

  /** Every other variable of a styled request keeps its value, and the
      variables already present keep their order, ahead of any added one. */
  lemma RequestRest(hooks: Hooks, qvs: OMap<QueryVar>, isAdmin: bool, objectTypes: seq<string>, s: string, j: string)
    requires Get(qvs, "post_style") == Some(Text(s))
    requires j != "post_style" && j != "post_type"
    ensures var r := PostStyleRequest(hooks, qvs, isAdmin, objectTypes);
            && Get(r, j) == Get(qvs, j)
            && |qvs| <= |r| && Keys(r)[..|qvs|] == Keys(qvs)
  {
    var q1 := PrefixStyleVar(hooks, qvs);
    PrefixStyleVarSpec(hooks, qvs, s, j);
    if !isAdmin {
      WidenKeepsRest(q1, TypeList(objectTypes), j);
    }
  }

  /** Adding `post_type` leaves every other variable and the existing order. */
  lemma WidenKeepsRest(q: OMap<QueryVar>, v: QueryVar, j: string)
    requires j != "post_type"
    ensures var r := Put(q, "post_type", v);
            && Get(r, j) == Get(q, j) && |q| <= |r| && Keys(r)[..|q|] == Keys(q)
  {
    PutGet(q, "post_type", v, j);
    PutKeys(q, "post_type", v);
  }

  /** `standard` is registered, so a request for it is rewritten too. */
  lemma StandardRequest(hooks: Hooks, qvs: OMap<QueryVar>, isAdmin: bool, objectTypes: seq<string>)
    requires Get(qvs, "post_style") == Some(Text(Standard))
    ensures Get(PostStyleRequest(hooks, qvs, isAdmin, objectTypes), "post_style") == Some(Text(StylePrefix + Standard))
  {
    assert HasKey(PostStyleStrings(hooks), Standard);
    RequestStyle(hooks, qvs, isAdmin, objectTypes, Standard);
  }

  /** A request without a `post_style` value is returned unchanged. */
  lemma RequestWithoutStyle(hooks: Hooks, qvs: OMap<QueryVar>, isAdmin: bool, objectTypes: seq<string>)
    requires !Isset(qvs, "post_style")
    ensures PostStyleRequest(hooks, qvs, isAdmin, objectTypes) == qvs
  {
  }

  /** `my_class_names` for the global `post`: outside single views a post
      of a supporting type gains `post-style-X` and `post-format-X` for its
      style X, or one combined `standard` class when the style is falsy;
      otherwise the list is returned as given. */
  function ClassNames(host: Host, classes: seq<string>, post: Option<Post>, isSingle: bool): (r: seq<string>)
    ensures |classes| <= |r| && r[..|classes|] == classes
    ensures post.None? || !post.value.supportsStyles || isSingle ==> r == classes
  {
    match post
    case None => classes
    case Some(p) =>
      if !p.supportsStyles || isSingle then classes
      else
        var style := GetPostStyle(post, Str(p.postType));
        if Truthy(style) then
          classes + [StylePrefix + host.sanitizeHtmlClass(style.s), "post-format-" + host.sanitizeHtmlClass(style.s)]
        else
          classes + ["post-style-standard post-format-standard"]
  }

  /** A post whose stored style is `post-style-k` is classed by `k`. */
  lemma StyledPostClasses(host: Host, classes: seq<string>, post: Post, k: string)
    requires post.supportsStyles && |post.styleTerms| > 0 && post.styleTerms[0] == StylePrefix + k
    requires !PhpEmpty(k) && !Contains(k, StylePrefix)
    ensures ClassNames(host, classes, Some(post), false)
         == classes + ["post-style-" + host.sanitizeHtmlClass(k), "post-format-" + host.sanitizeHtmlClass(k)]
  {
  }

  /** A post of a supporting type without a style is classed by its post
      type (`post-style-post` for a plain post), not as `standard`: the
      combined `standard` class appears only for a falsy type name. */
  lemma UnstyledPostClasses(host: Host, classes: seq<string>, post: Post)
    requires post.supportsStyles && post.styleTerms == []
    ensures ClassNames(host, classes, Some(post), false)
         == if PhpEmpty(post.postType) then classes + ["post-style-standard post-format-standard"]
            else classes + ["post-style-" + host.sanitizeHtmlClass(post.postType),
                            "post-format-" + host.sanitizeHtmlClass(post.postType)]
  {
  }
}
