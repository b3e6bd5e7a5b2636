/**
 * Finding a picture for a recipe: the URL check `is_valid_image_url`,
 * `follow_redirects`, the live (regex-based) `fetch_meta_image`, and the
 * fallback chain of `get_recipe_image`, which writes the picture it finds
 * into the recipe document.
 *
 * Every network call is an input: the `Web` value says what each request
 * would return.
 */
module ImageDiscovery {
  import opened Values
  import opened Text
  import opened Recipes

  /** What `requests.head(url)` gave: an exception, or a status and the `Content-Type` header if any. */
  datatype HeadReply = HeadFailed | Head(status: int, contentType: Option<string>)

  /**
   * What the noembed request gave: an exception, or a status and the body
   * decoded as JSON (`None` when `response.json()` raises).
   */
  datatype NoembedReply = NoembedFailed | Noembed(status: int, body: Option<Value>)

  /** The three tags the live `fetch_meta_image` looks for, in its order. */
  datatype MetaTag = OgImage | TwitterImage | LinkImageSrc

  const MetaOrder: seq<MetaTag> := [OgImage, TwitterImage, LinkImageSrc]

  /** The answers of the outside world. */
  datatype Web = Web(
    /** `requests.get(url).text`; `None` is a `RequestException`. */
    page: string -> Option<string>,
    /** Group 1 of the tag's regular expression searched in the page, case-insensitively. */
    search: (MetaTag, string) -> Option<string>,
    /** `urljoin(base, link)`. */
    join: (string, string) -> string,
    head: string -> HeadReply,
    /** The final URL after `requests.head(url, allow_redirects=True)`; `None` is an exception. */
    redirect: string -> Option<string>,
    noembed: string -> NoembedReply,
    /** `urlparse(url)`'s scheme and network location; `None` is a `ValueError`. */
    parts: string -> Option<(string, string)>)

  predicate HasHttpScheme(s: string) {
    StartsWith(s, "http://") || StartsWith(s, "https://")
  }

  /** The HEAD request found a 200 response with an image content type. */
  predicate HeadAccepts(h: HeadReply) {
    h.Head? && h.status == 200 && h.contentType.Some? && StartsWith(h.contentType.value, "image/")
  }

  /**
   * `is_valid_image_url`: a non-empty string that, once stripped, starts
   * with `http://` or `https://` and answers a HEAD request with 200 and an
   * image content type.
   */
  function IsValidImageUrl(v: Value, head: string -> HeadReply): (ok: bool)
    ensures ok <==> v.Str? && HasHttpScheme(Strip(v.s)) && HeadAccepts(head(Strip(v.s)))
  {
    match v
    case Str(s) =>
      if s == "" then false
      else
        var url := Strip(s);
        if !HasHttpScheme(url) then false
        else HeadAccepts(head(url))
    case _ => false
  }

  /** Input without an http(s) scheme is refused before any request: the answer does not depend on the network. */
  lemma SchemeGate(v: Value, head1: string -> HeadReply, head2: string -> HeadReply)
    requires !(v.Str? && HasHttpScheme(Strip(v.s)))
    ensures !IsValidImageUrl(v, head1) && IsValidImageUrl(v, head1) == IsValidImageUrl(v, head2)
  {
  }

  /** `follow_redirects`: the empty URL is returned as it is; a failed request returns the URL itself. */
  function FollowRedirects(url: string, redirect: string -> Option<string>): (r: string)
    ensures url == "" ==> r == ""
    ensures url != "" && redirect(url).None? ==> r == url
    ensures url != "" && redirect(url).Some? ==> r == redirect(url).value
  {
    if url == "" then url
    else
      match redirect(url)
      case Some(final) => final
      case None => url
  }

  /** The first tag in `tags` whose pattern matches the page, and its captured link. */
  function FirstMatch(tags: seq<MetaTag>, html: string, search: (MetaTag, string) -> Option<string>): (r: Option<(nat, string)>)
    ensures r.Some? ==> r.value.0 < |tags| && search(tags[r.value.0], html) == Some(r.value.1)
    ensures r.Some? ==> forall j :: 0 <= j < r.value.0 ==> search(tags[j], html).None?
    ensures r.None? ==> forall j :: 0 <= j < |tags| ==> search(tags[j], html).None?
  {
    if tags == [] then None
    else
      match search(tags[0], html)
      case Some(link) => Some((0, link))
      case None =>
        match FirstMatch(tags[1..], html, search)
        case Some((i, link)) => Some((i + 1, link))
        case None => None
  }

  /**
   * The live `fetch_meta_image` (the second definition, which rebinds the
   * name): fetch the page, take og:image, else twitter:image, else
   * link rel=image_src, and resolve the link against the page URL. Nothing
   * is validated.
   */
  function FetchMetaImage(pageUrl: string, web: Web): Option<string> {
    match web.page(pageUrl)
    case None => None
    case Some(html) =>
      match FirstMatch(MetaOrder, html, web.search)
      case Some((_, link)) => Some(web.join(pageUrl, link))
      case None => None
  }

  /** The priority order of the three tags, and the failed page request. */
  lemma FetchMetaImagePriority(pageUrl: string, web: Web, html: string)
    ensures web.page(pageUrl).None? ==> FetchMetaImage(pageUrl, web) == None
    ensures web.page(pageUrl) == Some(html) ==>
      if web.search(OgImage, html).Some? then
        FetchMetaImage(pageUrl, web) == Some(web.join(pageUrl, web.search(OgImage, html).value))
      else if web.search(TwitterImage, html).Some? then
        FetchMetaImage(pageUrl, web) == Some(web.join(pageUrl, web.search(TwitterImage, html).value))
      else if web.search(LinkImageSrc, html).Some? then
        FetchMetaImage(pageUrl, web) == Some(web.join(pageUrl, web.search(LinkImageSrc, html).value))
      else
        FetchMetaImage(pageUrl, web) == None
  {
    if web.page(pageUrl) == Some(html) {
      var r := FirstMatch(MetaOrder, html, web.search);
      assert MetaOrder[0] == OgImage && MetaOrder[1] == TwitterImage && MetaOrder[2] == LinkImageSrc;
      if r.Some? {
        var i := r.value.0;
        assert i == 0 || i == 1 || i == 2;
        if i == 1 {
          assert web.search(MetaOrder[0], html).None?;
        } else if i == 2 {
          assert web.search(MetaOrder[0], html).None? && web.search(MetaOrder[1], html).None?;
        }
      }
    }
  }

  /** The live meta-tag lookup makes no HEAD request: its answer is the same whatever HEAD would say. */
  lemma FetchMetaImageUnvalidated(pageUrl: string, web: Web, head: string -> HeadReply)
    ensures FetchMetaImage(pageUrl, web) == FetchMetaImage(pageUrl, web.(head := head))
  {
  }

  function AsValue(o: Option<string>): Value {
    match o
    case Some(s) => Str(s)
    case None => Null
  }

  /** Strategy 3, run when no picture has been found yet: the noembed thumbnail, kept only if it checks out. */
  function NoembedStep(current: Value, url: string, web: Web): Value {
    match web.noembed(url)
    case NoembedFailed => current
    case Noembed(status, body) =>
      if status != 200 then current
      else if body.None? || !body.value.Obj? then current
      else
        var thumb := Get(body.value.fields, "thumbnail_url");
        if IsValidImageUrl(thumb, web.head) then thumb else Null
  }

  /** Strategy 4: the site's `/favicon.ico`, kept only if it checks out. */
  function FaviconStep(current: Value, url: string, web: Web): Value {
    match web.parts(url)
    case None => current
    case Some((scheme, netloc)) =>
      var favicon := scheme + "://" + netloc + "/favicon.ico";
      if IsValidImageUrl(Str(favicon), web.head) then Str(favicon) else current
  }

  /** A recorded picture that is present and checks out is kept. */
  predicate KeepsOwnImage(r: Record, web: Web) {
    Truthy(Get(r, "image_url")) && IsValidImageUrl(Get(r, "image_url"), web.head)
  }

  /** Strategy 2 runs: nothing found so far, and a source URL that differs from the page URL. */
  predicate TriesSource(r: Record, url: string, found: Value) {
    !Truthy(found) && Truthy(Get(r, "source_url")) && Get(r, "source_url") != Str(url)
  }

  /**
   * The picture `get_recipe_image` settles on before redirects: the
   * recorded one if it checks out, otherwise the first of the four
   * strategies that yields something. A candidate that does not come
   * from the meta tags has passed the URL check.
   */
  function Candidate(url: string, r: Record, web: Web): (c: Value)
    ensures Truthy(c) ==> c.Str?
    ensures Truthy(c) ==>
      || IsValidImageUrl(c, web.head)
      || c == AsValue(FetchMetaImage(url, web))
      || (Get(r, "source_url").Str? && c == AsValue(FetchMetaImage(Get(r, "source_url").s, web)))
  {
    if KeepsOwnImage(r, web) then Get(r, "image_url")
    else
      var s1 := AsValue(FetchMetaImage(url, web));
      var source := Get(r, "source_url");
      var s2 := if TriesSource(r, url, s1) then
                  (if source.Str? then AsValue(FetchMetaImage(source.s, web)) else Null)
                else s1;
      var s3 := if !Truthy(s2) then NoembedStep(s2, url, web) else s2;
      if !Truthy(s3) then FaviconStep(s3, url, web) else s3
  }

  /** `get_recipe_image`'s answer: the candidate after redirects, or `None`. */
  function ImageFor(url: string, r: Record, web: Web): Option<string> {
    var c := Candidate(url, r, web);
    if Truthy(c) then Some(FollowRedirects(c.s, web.redirect)) else None
  }

  /** A recorded picture that checks out is kept, and no strategy is consulted. */
  lemma OwnImageKept(url: string, r: Record, web: Web)
    requires KeepsOwnImage(r, web)
    ensures ImageFor(url, r, web) == Some(FollowRedirects(Get(r, "image_url").s, web.redirect))
  {
  }

  /** When the page's own meta tags give a link, that link wins over every later strategy. */
  lemma MetaImageFirst(url: string, r: Record, web: Web)
    requires !KeepsOwnImage(r, web)
    requires FetchMetaImage(url, web).Some? && FetchMetaImage(url, web).value != ""
    ensures ImageFor(url, r, web) == Some(FollowRedirects(FetchMetaImage(url, web).value, web.redirect))
  {
  }

  /**
   * The extraction path sets `source_url` to the page URL before calling
   * `get_recipe_image`, so strategy 2 never runs there: the answer is the
   * one without any source URL.
   */
  lemma SameSourceNotRefetched(url: string, r: Record, web: Web)
    requires Get(r, "source_url") == Str(url)
    ensures ImageFor(url, r, web) == ImageFor(url, r - {"source_url"}, web)
  {
    assert Get(r - {"source_url"}, "image_url") == Get(r, "image_url");
  }

  /**
   * Strategies 1 and 2 find nothing: the page's meta tags give no link,
   * and either no source page is tried or its meta tags give none either.
   */
  predicate MetaFindsNothing(url: string, r: Record, web: Web) {
    var s1 := AsValue(FetchMetaImage(url, web));
    var source := Get(r, "source_url");
    && !Truthy(s1)
    && (!TriesSource(r, url, s1) || !source.Str? || !Truthy(AsValue(FetchMetaImage(source.s, web))))
  }

  /**
   * When the page's meta tags give nothing and a different source page is
   * tried, a link from the source page's meta tags wins over noembed and
   * the favicon.
   */
  lemma SourceImageSecond(url: string, r: Record, web: Web)
    requires !KeepsOwnImage(r, web)
    requires !Truthy(AsValue(FetchMetaImage(url, web)))
    requires Get(r, "source_url").Str? && Get(r, "source_url").s != "" && Get(r, "source_url") != Str(url)
    requires FetchMetaImage(Get(r, "source_url").s, web).Some? && FetchMetaImage(Get(r, "source_url").s, web).value != ""
    ensures ImageFor(url, r, web) == Some(FollowRedirects(FetchMetaImage(Get(r, "source_url").s, web).value, web.redirect))
  {
  }

  /** When the meta tags find nothing, a noembed thumbnail that checks out wins over the favicon. */
  lemma NoembedBeforeFavicon(url: string, r: Record, web: Web, fields: Record)
    requires !KeepsOwnImage(r, web) && MetaFindsNothing(url, r, web)
    requires web.noembed(url) == Noembed(200, Some(Obj(fields)))
    requires IsValidImageUrl(Get(fields, "thumbnail_url"), web.head)
    ensures ImageFor(url, r, web) == Some(FollowRedirects(Get(fields, "thumbnail_url").s, web.redirect))
  {
    var thumb := Get(fields, "thumbnail_url");
    assert thumb.s != "" by {
      assert StartsWith(Strip(thumb.s), "http://") || StartsWith(Strip(thumb.s), "https://");
    }
  }

  /** Strategy 3 finds nothing: the request fails, or its answer gives no thumbnail that checks out. */
  predicate NoembedFindsNothing(url: string, web: Web) {
    match web.noembed(url)
    case NoembedFailed => true
    case Noembed(status, body) =>
      status != 200 || body.None? || !body.value.Obj?
      || !IsValidImageUrl(Get(body.value.fields, "thumbnail_url"), web.head)
  }

  /**
   * When strategies 1 to 3 find nothing, the site's `/favicon.ico` is the
   * answer, after redirects, if it checks out.
   */
  lemma FaviconLast(url: string, r: Record, web: Web, scheme: string, netloc: string)
    requires !KeepsOwnImage(r, web) && MetaFindsNothing(url, r, web) && NoembedFindsNothing(url, web)
    requires web.parts(url) == Some((scheme, netloc))
    requires IsValidImageUrl(Str(scheme + "://" + netloc + "/favicon.ico"), web.head)
    ensures ImageFor(url, r, web) == Some(FollowRedirects(scheme + "://" + netloc + "/favicon.ico", web.redirect))
  {
  }

  /** When the meta tags find nothing, the result is the validated noembed thumbnail or favicon, or nothing. */
  lemma LateStrategiesValidated(url: string, r: Record, web: Web)
    requires !KeepsOwnImage(r, web) && MetaFindsNothing(url, r, web)
    ensures ImageFor(url, r, web).Some? ==> IsValidImageUrl(Candidate(url, r, web), web.head)
  {
  }

  /**
   * `get_recipe_image(url, recipe_data)` on the shared document: the
   * document's `image_url` is overwritten with the answer when there is
   * one and left alone when there is none.
   */
  method GetRecipeImage(url: string, doc: RecipeDoc, web: Web) returns (r: Option<string>)
    modifies doc
    ensures r == ImageFor(url, old(doc.fields), web)
    ensures r.Some? ==> doc.fields == old(doc.fields)["image_url" := Str(r.value)]
    ensures r.None? ==> doc.fields == old(doc.fields)
  {
    var imageUrl := Get(doc.fields, "image_url");
    if !Truthy(imageUrl) || !IsValidImageUrl(imageUrl, web.head) {
      imageUrl := AsValue(FetchMetaImage(url, web));
      var sourceUrl := Get(doc.fields, "source_url");
      if !Truthy(imageUrl) && Truthy(sourceUrl) && sourceUrl != Str(url) {
        imageUrl := if sourceUrl.Str? then AsValue(FetchMetaImage(sourceUrl.s, web)) else Null;
      }
      if !Truthy(imageUrl) {
        imageUrl := NoembedStep(imageUrl, url, web);
      }
      if !Truthy(imageUrl) {
        imageUrl := FaviconStep(imageUrl, url, web);
      }
    }
    if Truthy(imageUrl) {
      var final := FollowRedirects(imageUrl.s, web.redirect);
      doc.fields := doc.fields["image_url" := Str(final)];
      return Some(final);
    }
    return None;
  }
}
