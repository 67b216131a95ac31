/**
 * The refresh step of the RSS-based integration (`update_image` in
 * custom_components/daily_fingerpori/image.py; the file defines it twice,
 * identically, once per setup path, and this is the model of both).
 *
 * One cycle: fetch the feed, parse it, take the first `<item>`, choose its
 * image URL, download the image and, on a 200 answer, overwrite the cached
 * file with the downloaded bytes. Every path that returns before the write
 * returns `None` without touching the file. Every `Exception` is caught and
 * turned into `None`; one raised during or after the write can leave the file
 * truncated or already replaced (see `Io.WriteOutcome`).
 */
module FeedImage {
  import opened Wrappers
  import opened Io
  import opened ImageUrl

  /**
   * The bytes a cycle gets as far as writing, or `None` when it returns
   * early: the feed request raised or did not answer 200, its text could not
   * be read, the document did not parse, it has no item, the first item has
   * no usable image URL, or the image request raised, did not answer 200 or
   * its body could not be read.
   * `FeedImageCache.UpdateImage` is proved against this function; the
   * lemmas at the end of this module state its step-by-step properties.
   */
  function Download(feed: Response<string>, parse: string -> Option<seq<Item>>,
                    fetch: string -> Response<Bytes>): (r: Option<Bytes>)
    ensures r.Some? ==> feed.Answered? && feed.status == 200 && feed.body.Some?
    ensures r.Some? ==> exists url :: fetch(url) == Answered(200, r)
  {
    if !(feed.Answered? && feed.status == 200 && feed.body.Some?) then None
    else
      match parse(feed.body.value)
      case None => None
      case Some(items) =>
        if |items| == 0 then None
        else
          match ImageUrlOf(items[0])
          case None => None
          case Some(url) =>
            var image := fetch(url);
            if image.Answered? && image.status == 200 then image.body else None
  }

  /** The cached file at `image_path`, and the refresh step that overwrites it. */
  class FeedImageCache {
    /** The file's contents; `None` while no image has ever been written. */
    var cached: Option<Bytes>

    constructor (existing: Option<Bytes>)
      ensures cached == existing
    {
      cached := existing;
    }

    /**
     * `_write_bytes`: open the file for writing (which truncates it), then
     * write `data`. `ok` is false when either step raised.
     */
    method WriteBytes(data: Bytes, w: WriteOutcome) returns (ok: bool)
      modifies this
      ensures ok <==> w.Written?
      ensures cached == AfterWrite(old(cached), data, w)
      ensures ok ==> cached == Some(data)
      ensures !ok ==> UnchangedOrPrefix(old(cached), cached, data)
    {
      if w.OpenRaised? {
        return false;
      }
      cached := Some([]);
      if w.WriteRaised? {
        cached := Some(Prefix(data, w.kept));
        return false;
      }
      cached := Some(data);
      return true;
    }

    /**
     * `update_image`. `feed` is what the request for the feed produced,
     * `parse` stands for `ET.fromstring` followed by `findall(".//item")`
     * (`None`: the document did not parse), `fetch` for the image request
     * made with the chosen URL, and `w` for what the file write does.
     */
    method UpdateImage(feed: Response<string>, parse: string -> Option<seq<Item>>,
                       fetch: string -> Response<Bytes>, w: WriteOutcome)
      returns (r: Option<Bytes>)
      modifies this
      ensures Download(feed, parse, fetch).None? ==> r.None? && cached == old(cached)
      ensures Download(feed, parse, fetch).Some? ==>
        cached == AfterWrite(old(cached), Download(feed, parse, fetch).value, w)
        && r == (if w.Written? then Download(feed, parse, fetch) else None)
      ensures r.Some? ==> r == Download(feed, parse, fetch) && cached == r
      ensures r.None? ==>
        (cached == old(cached)
         || (Download(feed, parse, fetch).Some?
             && UnchangedOrPrefix(old(cached), cached, Download(feed, parse, fetch).value)))
    {
      // Fetch the feed.
      if feed.Raised? || feed.status != 200 {
        return None;
      }
      if feed.body.None? {
        return None;
      }
      var text := feed.body.value;

      // Parse it and take the first item.
      var items := parse(text);
      if items.None? {
        return None;
      }
      if |items.value| == 0 {
        return None;
      }
      var item := items.value[0];

      // Enclosure first, then the `src=` search.
      var imgUrl := ImageUrlOf(item);
      if imgUrl.None? {
        return None;
      }

      // Download the image.
      var image := fetch(imgUrl.value);
      if image.Raised? {
        return None;
      }
      if image.status == 200 {
        if image.body.None? {
          return None;
        }
        var data := image.body.value;
        var ok := WriteBytes(data, w);
        if !ok {
          return None;
        }
        return Some(data);
      }
      return None;
    }
  }

  // ---------------------------------------------------------------------------
  // What a cycle downloads

  /** A cycle reaches the write with `data` exactly when every step before it succeeds. */
  lemma DownloadSome(feed: Response<string>, parse: string -> Option<seq<Item>>,
                     fetch: string -> Response<Bytes>, data: Bytes)
    ensures Download(feed, parse, fetch) == Some(data) <==>
      feed.Answered? && feed.status == 200 && feed.body.Some?
      && parse(feed.body.value).Some? && |parse(feed.body.value).value| > 0
      && ImageUrlOf(parse(feed.body.value).value[0]).Some?
      && fetch(ImageUrlOf(parse(feed.body.value).value[0]).value) == Answered(200, Some(data))
  {
  }

  /** A feed request that raised or did not answer 200 downloads nothing. */
  lemma FeedFailure(feed: Response<string>, parse: string -> Option<seq<Item>>,
                    fetch: string -> Response<Bytes>)
    requires feed.Raised? || feed.status != 200
    ensures Download(feed, parse, fetch).None?
  {
  }

  /** A document that does not parse, or has no item, downloads nothing. */
  lemma NoItems(text: string, parse: string -> Option<seq<Item>>, fetch: string -> Response<Bytes>)
    requires parse(text).None? || parse(text) == Some([])
    ensures Download(Answered(200, Some(text)), parse, fetch).None?
  {
  }

  /** Only the first item counts: two parses that agree on it give the same download. */
  lemma FirstItemOnly(text: string, parse: string -> Option<seq<Item>>, parse': string -> Option<seq<Item>>,
                      fetch: string -> Response<Bytes>)
    requires parse(text).Some? && parse'(text).Some?
    requires |parse(text).value| > 0 && |parse'(text).value| > 0
    requires parse(text).value[0] == parse'(text).value[0]
    ensures Download(Answered(200, Some(text)), parse, fetch) == Download(Answered(200, Some(text)), parse', fetch)
  {
  }

  /** An image request that raised or did not answer 200 downloads nothing. */
  lemma ImageFailure(text: string, parse: string -> Option<seq<Item>>, fetch: string -> Response<Bytes>)
    requires parse(text).Some? && |parse(text).value| > 0
    requires ImageUrlOf(parse(text).value[0]).Some?
    requires var image := fetch(ImageUrlOf(parse(text).value[0]).value); image.Raised? || image.status != 200
    ensures Download(Answered(200, Some(text)), parse, fetch).None?
  {
  }
}
