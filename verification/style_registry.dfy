/** The style registry: `get_post_style_strings`, `get_post_style_slugs`
    and `get_post_style_string`. Labels are the untranslated English ones. */
module StyleRegistry {
  import opened Php
  import opened OrderedMap
  import opened WordPress

  const Standard: string := "standard"
  const StandardLabel: string := "Standard"

  /** The built-in styles and their labels, in declaration order, before the
      `post_style_strings` filter runs. */
  function BuiltInStyles(): OMap<string>
  {
    [ ("aside", "Aside"), ("image", "Image"), ("video", "Video"), ("audio", "Audio"),
      ("playlist", "Playlist"), ("quote", "Quote"), ("link", "Link"), ("link-list", "List"),
      ("gallery", "Gallery"), ("embed", "Embed"), ("no-photo", "No Photo"), ("chat", "Chat") ]
  }

  /** The styles after the filter: what themes and plugins register. */
  function Filtered(hooks: Hooks): OMap<string>
  {
    hooks.styleStrings(BuiltInStyles())
  }

  /** `get_post_style_strings`: `standard` is put in front of the filtered
      styles with the label "Standard", overriding any entry the filter made
      for it; every other style keeps the filter's label. */
  function PostStyleStrings(hooks: Hooks): (r: OMap<string>)
    ensures |r| > 0 && r[0] == (Standard, StandardLabel)
    ensures Get(r, Standard) == Some(StandardLabel)
    ensures forall k :: k != Standard ==> Get(r, k) == Get(Filtered(hooks), k)
    ensures UniqueKeys(Filtered(hooks)) ==> UniqueKeys(r)
  {
    PrependSpec(Filtered(hooks), Standard, StandardLabel);
    Prepend(Filtered(hooks), Standard, StandardLabel)
  }

  /** `array_combine($keys, $keys)`: each key mapped to itself. */
  function SelfMap(ks: seq<string>): (r: OMap<string>)
    ensures |r| == |ks|
    ensures forall i :: 0 <= i < |ks| ==> r[i] == (ks[i], ks[i])
  {
    seq(|ks|, i requires 0 <= i < |ks| => (ks[i], ks[i]))
  }

  /** `get_post_style_slugs`: every registered slug, mapped to itself. */
  function PostStyleSlugs(hooks: Hooks): (r: OMap<string>)
    ensures |r| == |PostStyleStrings(hooks)| && r[0] == (Standard, Standard)
    ensures forall i :: 0 <= i < |r| ==> r[i] == (PostStyleStrings(hooks)[i].0, PostStyleStrings(hooks)[i].0)
  {
    SelfMap(Keys(PostStyleStrings(hooks)))
  }

  /** `k` is a key of `m` exactly when it is in the key sequence. */
  lemma KeysHas(m: OMap<string>, k: string)
    ensures k in Keys(m) <==> HasKey(m, k)
  {
    var ks := Keys(m);
    if k in ks {
      var i :| 0 <= i < |ks| && ks[i] == k;
      assert m[i].0 == k;
    }
    if HasKey(m, k) {
      var i :| 0 <= i < |m| && m[i].0 == k;
      assert ks[i] == k;
    }
  }

  /** A self-map holds `k` exactly when `k` is one of the listed keys, and
      then maps it to itself. */
  lemma SelfMapGet(ks: seq<string>, k: string)
    ensures Get(SelfMap(ks), k) == if k in ks then Some(k) else None
  {
    var r := SelfMap(ks);
    if HasKey(r, k) {
      var i :| 0 <= i < |r| && r[i].0 == k;
      assert ks[i] == k;
    }
    if k in ks {
      var i :| 0 <= i < |ks| && ks[i] == k;
      assert r[i].0 == k;
    }
    if Get(r, k).Some? {
      var i :| 0 <= i < |r| && r[i] == (k, Get(r, k).value);
    }
  }

  /** The slug map answers a lookup with the slug itself exactly for the
      registered styles (`standard` among them), and its values are exactly
      the registered slugs. */
  lemma SlugsSpec(hooks: Hooks, k: string)
    ensures Get(PostStyleSlugs(hooks), k) == if HasKey(PostStyleStrings(hooks), k) then Some(k) else None
    ensures k in Values(PostStyleSlugs(hooks)) <==> HasKey(PostStyleStrings(hooks), k)
  {
    var ks := Keys(PostStyleStrings(hooks));
    KeysHas(PostStyleStrings(hooks), k);
    SelfMapGet(ks, k);
    assert Values(SelfMap(ks)) == ks;
  }

  /** A key of the registry: `standard`, or a style the filter kept or added. */
  lemma RegisteredSpec(hooks: Hooks, k: string)
    ensures HasKey(PostStyleStrings(hooks), k) <==> k == Standard || HasKey(Filtered(hooks), k)
  {
    assert Get(PostStyleStrings(hooks), k).Some? <==> HasKey(PostStyleStrings(hooks), k);
  }

  /** `get_post_style_string`: the label of a slug; the standard label for
      a falsy slug, and the empty string for an unregistered one. */
  function PostStyleString(hooks: Hooks, slug: Value): (r: string)
    ensures !Truthy(slug) ==> r == StandardLabel
    ensures Truthy(slug) && slug.s == Standard ==> r == StandardLabel
    ensures Truthy(slug) && slug.s != Standard ==>
              (if HasKey(Filtered(hooks), slug.s) then Some(r) == Get(Filtered(hooks), slug.s) else r == "")
  {
    var strings := PostStyleStrings(hooks);
    if !Truthy(slug) then Get(strings, Standard).value
    else match Get(strings, slug.s)
      case Some(name) => name
      case None => ""
  }

  /** Without callbacks the registry is `standard` followed by the twelve
      built-in styles, in declaration order. */
  lemma DefaultRegistry()
    ensures PostStyleStrings(NoHooks()) == [(Standard, StandardLabel)] + BuiltInStyles()
    ensures |PostStyleStrings(NoHooks())| == 13
  {
    BuiltInSlugs();
    WithoutAbsent(BuiltInStyles(), Standard);
  }

  /** The built-in slugs are distinct, none is `standard`, and none is
      PHP-empty: no two agree in length, first and last character together,
      and `standard` agrees with none of them in that way. */
  lemma BuiltInSlugs()
    ensures UniqueKeys(BuiltInStyles())
    ensures !HasKey(BuiltInStyles(), Standard)
    ensures forall i :: 0 <= i < |BuiltInStyles()| ==> !PhpEmpty(BuiltInStyles()[i].0)
  {
    var b := BuiltInStyles();
    var sig := seq(|b|, i requires 0 <= i < |b| => (|b[i].0|, b[i].0[0], b[i].0[|b[i].0| - 1]));
    assert sig == [(5, 'a', 'e'), (5, 'i', 'e'), (5, 'v', 'o'), (5, 'a', 'o'), (8, 'p', 't'), (5, 'q', 'e'),
                   (4, 'l', 'k'), (9, 'l', 't'), (7, 'g', 'y'), (5, 'e', 'd'), (8, 'n', 'o'), (4, 'c', 't')];
    forall i, j | 0 <= i < j < |b|
      ensures b[i].0 != b[j].0
    {
      assert sig[i] != sig[j];
    }
    forall i | 0 <= i < |b|
      ensures b[i].0 != Standard && !PhpEmpty(b[i].0)
    {
      assert sig[i] != (8, 's', 'd') && sig[i].0 >= 4;
    }
  }

  /** Without callbacks each built-in slug reads back its own label. */
  lemma DefaultLabels(i: nat)
    requires i < |BuiltInStyles()|
    ensures PostStyleString(NoHooks(), Str(BuiltInStyles()[i].0)) == BuiltInStyles()[i].1
  {
    var b := BuiltInStyles();
    BuiltInSlugs();
    GetUnique(b, i);
    assert Filtered(NoHooks()) == b;
    assert HasKey(b, b[i].0);
  }
}
