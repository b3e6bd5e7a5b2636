/**
 * The session image cache: entries keyed by a digest of the image URL,
 * holding the downloaded bytes, their content type and the time of the
 * download. `cache_image` refreshes an entry; `get_cached_image` reads one.
 */
module ImageCache {
  import opened Values
  import opened Text

  /** `{'content': ..., 'content_type': ..., 'timestamp': ...}` */
  datatype CacheEntry = CacheEntry(content: seq<byte>, contentType: string, timestamp: real)

  /**
   * What `requests.get(url)` gave: an exception, or a response with its
   * status code, its `Content-Type` header if any, its body, and whether
   * PIL can open the body as an image.
   */
  datatype ImageResponse =
    | RequestFailed
    | Response(status: int, contentType: Option<string>, content: seq<byte>, decodes: bool)

  /** The cache key of a URL: `hashlib.md5(url.encode()).hexdigest()`. */
  ghost predicate Injective(keyOf: string -> string) {
    forall u, v :: keyOf(u) == keyOf(v) ==> u == v
  }

  /** An entry that `cache_image` does not reload: it has a time stamp and is younger than the limit. */
  predicate Fresh(entries: map<string, CacheEntry>, key: string, maxAgeHours: int, now: real) {
    key in entries && entries[key].timestamp != 0.0
    && now - entries[key].timestamp < (maxAgeHours * 3600) as real
  }

  /** The response is stored: status 200, an image content type, and a body PIL can open. */
  predicate Accepted(resp: ImageResponse) {
    resp.Response? && resp.status == 200
    && resp.contentType.Some? && StartsWith(resp.contentType.value, "image/")
    && resp.decodes
  }

  /** The cache after `cache_image(url, max_age_hours)` at time `now`, given what the download returns. */
  function AfterCacheImage(entries: map<string, CacheEntry>, keyOf: string -> string, url: string,
                           maxAgeHours: int, now: real, resp: ImageResponse): map<string, CacheEntry>
  {
    if url == "" then entries
    else if Fresh(entries, keyOf(url), maxAgeHours, now) then entries
    else if Accepted(resp) then entries[keyOf(url) := CacheEntry(resp.content, resp.contentType.value, now)]
    else entries
  }

  /** A fresh entry (or an empty URL) leaves the cache exactly as it was. */
  lemma FreshEntryKept(entries: map<string, CacheEntry>, keyOf: string -> string, url: string,
                       maxAgeHours: int, now: real, resp: ImageResponse)
    requires url == "" || Fresh(entries, keyOf(url), maxAgeHours, now)
    ensures AfterCacheImage(entries, keyOf, url, maxAgeHours, now, resp) == entries
  {
  }

  /**
   * Any call either leaves the cache unchanged or stores, under the URL's
   * key, the accepted response stamped with the current time; it changes
   * only when the entry was not fresh and the response was accepted.
   */
  lemma CacheImageOutcome(entries: map<string, CacheEntry>, keyOf: string -> string, url: string,
                          maxAgeHours: int, now: real, resp: ImageResponse)
    ensures var after := AfterCacheImage(entries, keyOf, url, maxAgeHours, now, resp);
      || after == entries
      || (Accepted(resp) && after == entries[keyOf(url) := CacheEntry(resp.content, resp.contentType.value, now)])
    ensures AfterCacheImage(entries, keyOf, url, maxAgeHours, now, resp) != entries ==>
      url != "" && !Fresh(entries, keyOf(url), maxAgeHours, now) && Accepted(resp)
  {
  }

  /** A stored entry is fresh for any positive age limit at the moment it is stored, unless `now` is zero. */
  lemma StoredEntryFresh(entries: map<string, CacheEntry>, keyOf: string -> string, url: string,
                         maxAgeHours: int, now: real, resp: ImageResponse)
    requires url != "" && !Fresh(entries, keyOf(url), maxAgeHours, now) && Accepted(resp)
    requires maxAgeHours > 0 && now != 0.0
    ensures Fresh(AfterCacheImage(entries, keyOf, url, maxAgeHours, now, resp), keyOf(url), maxAgeHours, now)
  {
  }

  /** `get_cached_image`: the content of any entry under the URL's key, however old. */
  function CachedContent(entries: map<string, CacheEntry>, keyOf: string -> string, url: string): (r: Option<seq<byte>>)
    ensures r.Some? <==> url != "" && keyOf(url) in entries
    ensures r.Some? ==> r.value == entries[keyOf(url)].content
  {
    if url == "" then None
    else if keyOf(url) in entries then Some(entries[keyOf(url)].content)
    else None
  }

  /** Caching one URL never changes what another URL reads, because the key function is injective. */
  lemma CacheImageIsolated(entries: map<string, CacheEntry>, keyOf: string -> string, url: string, other: string,
                           maxAgeHours: int, now: real, resp: ImageResponse)
    requires Injective(keyOf) && other != url
    ensures CachedContent(AfterCacheImage(entries, keyOf, url, maxAgeHours, now, resp), keyOf, other)
            == CachedContent(entries, keyOf, other)
  {
    assert keyOf(other) != keyOf(url);
  }

  /** After a successful download, reading the URL gives the downloaded bytes. */
  lemma CacheThenRead(entries: map<string, CacheEntry>, keyOf: string -> string, url: string,
                      maxAgeHours: int, now: real, resp: ImageResponse)
    requires url != "" && !Fresh(entries, keyOf(url), maxAgeHours, now) && Accepted(resp)
    ensures CachedContent(AfterCacheImage(entries, keyOf, url, maxAgeHours, now, resp), keyOf, url) == Some(resp.content)
  {
  }

  /** The image entries of the session state. */
  class ImageStore {
    var entries: map<string, CacheEntry>
    const keyOf: string -> string

    /** The digest tells URLs apart, so no two URLs share an entry. */
    ghost predicate Valid() {
      Injective(keyOf)
    }

    constructor (keyOf: string -> string)
      requires Injective(keyOf)
      ensures Valid()
      ensures entries == map[] && this.keyOf == keyOf
    {
      entries := map[];
      this.keyOf := keyOf;
    }

    /**
     * `cache_image(url, max_age_hours)` at time `now`; `download` is what
     * `requests.get(url)` returns when it is called.
     */
    method CacheImage(url: string, maxAgeHours: int, now: real, download: ImageResponse)
      requires Valid()
      modifies this
      ensures Valid()
      ensures entries == AfterCacheImage(old(entries), keyOf, url, maxAgeHours, now, download)
      ensures forall other :: other != url ==>
        CachedContent(entries, keyOf, other) == CachedContent(old(entries), keyOf, other)
    {
      if url == "" {
        return;
      }
      var key := keyOf(url);
      if key in entries {
        var cached := entries[key];
        if cached.timestamp != 0.0 && now - cached.timestamp < (maxAgeHours * 3600) as real {
          return;
        }
      }
      if download.Response? && download.status == 200
         && download.contentType.Some? && StartsWith(download.contentType.value, "image/")
      {
        if download.decodes {
          entries := entries[key := CacheEntry(download.content, download.contentType.value, now)];
        }
      }
    }

    /** `get_cached_image(url)`. */
    method GetCachedImage(url: string) returns (r: Option<seq<byte>>)
      ensures r == CachedContent(entries, keyOf, url)
    {
      if url == "" {
        return None;
      }
      var key := keyOf(url);
      if key in entries {
        return Some(entries[key].content);
      }
      return None;
    }
  }
}
