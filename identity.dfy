/** The deduplication keys the pipeline derives from a feature: the current
    downloader's id-first key, the legacy downloader's title-first key, and the
    combiners' country-scoped title key, all built from `normalize_title`. */
module Identity {
  import opened JsonValues
  import opened Text

  /** Which downloader's `feature_key` applies: the current one tries the area
      id first, the legacy one never looks at it. */
  datatype Edition = Current | Legacy

  predicate StartsWith(s: string, p: string) {
    |p| <= |s| && s[..|p|] == p
  }

  lemma Prefixed(p: string, x: string)
    ensures StartsWith(p + x, p)
  {
    assert (p + x)[..|p|] == p;
  }

  /** Prefixes that differ in their first character exclude each other. */
  lemma PrefixesExclusive(s: string, p: string, q: string)
    requires StartsWith(s, p) && p != [] && q != [] && p[0] != q[0]
    ensures !StartsWith(s, q)
  {
    assert s[0] == s[..|p|][0];
  }

  /** A string carrying prefix `p` carries no prefix that starts differently. */
  lemma PrefixExcludesOthers(s: string, p: string)
    requires StartsWith(s, p) && p != []
    ensures forall q {:trigger StartsWith(s, q)} :: q != [] && q[0] != p[0] ==> !StartsWith(s, q)
  {
    forall q | q != [] && q[0] != p[0] ensures !StartsWith(s, q) {
      PrefixesExclusive(s, p, q);
    }
  }

  /** `f"{tag}{body}"` for a non-empty tag: the result carries the tag and no
      prefix that starts with another character. */
  function Tagged(tag: string, body: string): (k: string)
    requires tag != []
    ensures StartsWith(k, tag)
    ensures forall q {:trigger StartsWith(k, q)} :: q != [] && q[0] != tag[0] ==> !StartsWith(k, q)
  {
    Prefixed(tag, body);
    PrefixExcludesOthers(tag + body, tag);
    tag + body
  }

  function Title(f: Dict): Json {
    Get(PropsOf(f), "title")
  }

  function Iso3(f: Dict): Json {
    Get(PropsOf(f), "iso3")
  }

  function AreaId(f: Dict): Json {
    Get(PropsOf(f), "id")
  }

  /** `normalize_title(props.get('title'))` */
  function TitleKey(f: Dict): (t: string)
    requires TextLike(Title(f))
    ensures IsNormalized(t)
    ensures t == "" <==> !Truthy(Title(f)) || Words(Title(f).s) == []
  {
    NormalizeTitle(TextOf(Title(f)))
  }

  /** `(props.get('iso3') or '').strip().lower()` */
  function Scope(f: Dict): string
    requires TextLike(Iso3(f))
  {
    Lower(Strip(TextOf(Iso3(f))))
  }

  /** The hash fallbacks shared by every variant: the digest of the geometry
      when it is truthy, else the digest of the whole feature. */
  function HashKey(ext: Externals, f: Dict): (k: string)
    ensures StartsWith(k, "geometry::") <==> Truthy(Get(f, "geometry"))
    ensures StartsWith(k, "feature::") <==> !Truthy(Get(f, "geometry"))
  {
    var g := Get(f, "geometry");
    if Truthy(g) then Tagged("geometry::", Digest(ext, g))
    else Tagged("feature::", Digest(ext, Obj(f)))
  }

  /** The current downloader keys by id whenever the id is not None. */
  predicate UsesId(edition: Edition, f: Dict) {
    edition == Current && AreaId(f) != Null
  }

  /** The inputs on which the downloaders' `feature_key` runs without raising:
      readable properties, and a text-like value wherever a string method is
      called on it. */
  predicate Keyable(edition: Edition, f: Dict) {
    && PropsReadable(f)
    && (if UsesId(edition, f) then TextLike(Iso3(f)) else TextLike(Title(f)))
  }

  /** `IPCAreaDownloader.feature_key` of either downloader. The prefix names
      the rule that fired, in precedence order: id, then title, then the
      geometry digest, then the feature digest. */
  function DownloadKey(edition: Edition, ext: Externals, f: Dict): (k: string)
    requires Keyable(edition, f)
    ensures UsesId(edition, f) <==> StartsWith(k, "id::")
    ensures !UsesId(edition, f) ==> (TitleKey(f) != "" <==> StartsWith(k, "title::"))
    ensures !UsesId(edition, f) && TitleKey(f) == "" ==> k == HashKey(ext, f)
  {
    if UsesId(edition, f) then IdKey(ext, f)
    else if TitleKey(f) != "" then TitledKey(f)
    else FallbackKey(ext, f)
  }

  /** `f"id::{iso3}::{str(area_id).strip().lower()}"` */
  function IdKey(ext: Externals, f: Dict): (k: string)
    requires TextLike(Iso3(f))
    ensures StartsWith(k, "id::") && !StartsWith(k, "title::")
  {
    IdTagged(Scope(f) + "::" + IdText(ext, AreaId(f)))
  }

  /** The `id::` tag on any body. */
  function IdTagged(body: string): (k: string)
    ensures StartsWith(k, "id::") && !StartsWith(k, "title::")
  {
    assert "title::"[0] != "id::"[0];
    Tagged("id::", body)
  }

  /** `str(area_id).strip().lower()` */
  function IdText(ext: Externals, id: Json): string {
    Lower(Strip(PyStr(ext, id)))
  }

  /** `f"title::{title_key}"` */
  function TitledKey(f: Dict): (k: string)
    requires TextLike(Title(f))
    ensures StartsWith(k, "title::") && !StartsWith(k, "id::")
  {
    Tagged("title::", TitleKey(f))
  }

  /** The hash fallbacks never look like an id or a title key. */
  function FallbackKey(ext: Externals, f: Dict): (k: string)
    ensures k == HashKey(ext, f)
    ensures !StartsWith(k, "id::") && !StartsWith(k, "title::")
  {
    HashKey(ext, f)
  }

  /** The inputs on which the combiners' `feature_key` runs without raising:
      both iso3 and title are read unconditionally. */
  predicate CombineKeyable(f: Dict) {
    PropsReadable(f) && TextLike(Iso3(f)) && TextLike(Title(f))
  }

  /** `feature_key` of both combiners: `iso3::title` when both parts are
      non-empty, else the hash fallbacks. */
  function CombineKey(ext: Externals, f: Dict): (k: string)
    requires CombineKeyable(f)
    ensures Scope(f) == "" || TitleKey(f) == "" ==> k == HashKey(ext, f)
  {
    if Scope(f) != "" && TitleKey(f) != "" then Scope(f) + "::" + TitleKey(f)
    else HashKey(ext, f)
  }

  lemma DropPrefix(p: string, a: string, b: string)
    requires p + a == p + b
    ensures a == b
  {
    assert a == (p + a)[|p|..];
    assert b == (p + b)[|p|..];
  }

  /** Without an id, two features with non-empty titles share a key exactly
      when their titles normalise alike. */
  lemma TitleKeysMatchTitles(edition: Edition, ext: Externals, f: Dict, g: Dict)
    requires Keyable(edition, f) && Keyable(edition, g)
    requires !UsesId(edition, f) && !UsesId(edition, g)
    requires TitleKey(f) != "" && TitleKey(g) != ""
    ensures DownloadKey(edition, ext, f) == DownloadKey(edition, ext, g) <==> TitleKey(f) == TitleKey(g)
  {
    if DownloadKey(edition, ext, f) == DownloadKey(edition, ext, g) {
      DropPrefix("title::", TitleKey(f), TitleKey(g));
    }
  }

  /** `a + "::" + b` splits back into `a` and `b` when `a` has no colon. */
  lemma {:induction false} ScopedSplit(a1: string, b1: string, a2: string, b2: string)
    requires ':' !in a1 && ':' !in a2
    ensures a1 + "::" + b1 == a2 + "::" + b2 <==> a1 == a2 && b1 == b2
  {
    var s1, s2 := a1 + "::" + b1, a2 + "::" + b2;
    assert s1[|a1|] == ':' && s2[|a2|] == ':';
    assert forall i :: 0 <= i < |a1| ==> s1[i] == a1[i];
    assert forall i :: 0 <= i < |a2| ==> s2[i] == a2[i];
    if s1 == s2 {
      assert |a1| == |a2| by {
        if |a1| < |a2| {
          assert false;
        } else if |a2| < |a1| {
          assert false;
        }
      }
      assert a1 == s1[..|a1|] && a2 == s2[..|a2|];
      assert b1 == s1[|a1| + 2..] && b2 == s2[|a2| + 2..];
    }
  }

  /** With an id, the current downloader's key depends on nothing but the
      scope and the id: two features share a key exactly when both agree,
      whatever their titles and geometries (scopes being colon-free, as
      ISO3 codes are). */
  lemma IdKeysMatchIds(ext: Externals, f: Dict, g: Dict)
    requires Keyable(Current, f) && Keyable(Current, g)
    requires UsesId(Current, f) && UsesId(Current, g)
    requires ':' !in Scope(f) && ':' !in Scope(g)
    ensures DownloadKey(Current, ext, f) == DownloadKey(Current, ext, g) <==>
      Scope(f) == Scope(g) && IdText(ext, AreaId(f)) == IdText(ext, AreaId(g))
  {
    var bf, bg := Scope(f) + "::" + IdText(ext, AreaId(f)), Scope(g) + "::" + IdText(ext, AreaId(g));
    if DownloadKey(Current, ext, f) == DownloadKey(Current, ext, g) {
      DropPrefix("id::", bf, bg);
    }
    ScopedSplit(Scope(f), IdText(ext, AreaId(f)), Scope(g), IdText(ext, AreaId(g)));
  }

  /** When both parts are present, the combiners' key identifies a feature
      by its scope and normalised title: two such features share a key
      exactly when both agree. */
  lemma CombineKeysMatchScopedTitles(ext: Externals, f: Dict, g: Dict)
    requires CombineKeyable(f) && CombineKeyable(g)
    requires Scope(f) != "" && TitleKey(f) != "" && Scope(g) != "" && TitleKey(g) != ""
    requires ':' !in Scope(f) && ':' !in Scope(g)
    ensures CombineKey(ext, f) == CombineKey(ext, g) <==> Scope(f) == Scope(g) && TitleKey(f) == TitleKey(g)
  {
    ScopedSplit(Scope(f), TitleKey(f), Scope(g), TitleKey(g));
  }

  /** A feature whose title is replaced by its normalised form. */
  function WithNormalizedTitle(f: Dict): (g: Dict)
    requires PropsReadable(f) && TextLike(Title(f))
    ensures PropsReadable(g) && Title(g) == Str(TitleKey(f))
    ensures AreaId(g) == AreaId(f) && Iso3(g) == Iso3(f)
  {
    WithTitle(f, TitleKey(f))
  }

  /** A feature whose `properties['title']` is set to `t`. */
  function WithTitle(f: Dict, t: string): (g: Dict)
    ensures PropsReadable(g) && Title(g) == Str(t)
    ensures AreaId(g) == AreaId(f) && Iso3(g) == Iso3(f)
  {
    f["properties" := Obj(PropsOf(f)["title" := Str(t)])]
  }

  /** Normalising a title before keying changes nothing: the downloaders'
      key of a titled feature survives its title being normalised. */
  lemma DownloadKeyStableUnderNormalization(edition: Edition, ext: Externals, f: Dict)
    requires Keyable(edition, f) && !UsesId(edition, f) && TitleKey(f) != ""
    ensures Keyable(edition, WithNormalizedTitle(f))
    ensures DownloadKey(edition, ext, WithNormalizedTitle(f)) == DownloadKey(edition, ext, f)
  {
    NormalizeTitleIdempotent(TextOf(Title(f)));
  }

  /** The same for the combiners' key. */
  lemma CombineKeyStableUnderNormalization(ext: Externals, f: Dict)
    requires CombineKeyable(f) && Scope(f) != "" && TitleKey(f) != ""
    ensures CombineKeyable(WithNormalizedTitle(f))
    ensures CombineKey(ext, WithNormalizedTitle(f)) == CombineKey(ext, f)
  {
    var g := WithNormalizedTitle(f);
    NormalizeTitleIdempotent(TextOf(Title(f)));
    assert TitleKey(g) == TitleKey(f);
    assert Scope(g) == Scope(f);
  }
}
