# Daily Fingerpori: the refresh step, in Dafny

This project models the refresh step of the Daily Fingerpori integration. The step
runs on a timer. It downloads the day's comic and overwrites one cached image file.
The file is then served as an image entity. There are two variants.

- **RSS variant** (`custom_components/daily_fingerpori/image.py`, `update_image`):
  - It fetches the feed and parses it.
  - It takes the first `<item>` in document order.
  - It uses that item's `<enclosure url=...>` as the image URL. Without one, it uses the
    first `src="...gif|png|jpg|jpeg"` reference in the item's serialised XML.
  - It downloads the image. On a 200 answer it overwrites the cached file with exactly the
    downloaded bytes and returns them. Every path that returns before the write returns `None`
    and leaves the file alone. An `Exception` during or after the write also gives `None`, but the
    file may by then be truncated, partly written or fully replaced.
  - The file defines `update_image` twice, with the same text, once for each setup path
    (lines 35-87 and 104-156). One model covers both copies.
- **Dated variant** (repository-root `image.py`, `update_image`):
  - It formats today's UTC date as `dd_mm_yy` and puts it into the `URL` template.
  - It downloads that URL and, on a 200 answer, overwrites the cached file.
  - It is also defined twice with the same text (lines 28-44 and 61-76). One model covers both.

Modules:

- `Wrappers` (wrappers.dfy): `Option`.
- `Io` (io.dfy): the effects as values.
  - `Response<T>` is what an HTTP request produced: it raised, or it answered with a status
    and a body. The body is `None` when reading it raised.
  - `WriteOutcome` is what `open(path, "wb")` plus `write` did: written, open raised, or the
    write raised after some bytes. `AfterWrite` gives the file afterwards.
- `ImageUrl` (image_url.dfy): the pure URL choice.
  - The regular expression `src=["']([^"']+\.(?:gif|png|jpe?g))["']`, case-insensitive, is a
    leftmost-match scanner (`Search`). It is proved equal to a declarative reading of the
    pattern (`RegexMatch`, `LeftmostMatch`).
  - After `src=` and a quote, both `[^"']+` and the extension stop at the next quote. So the
    capture is everything up to the first following quote, whichever quote opened it.
- `FeedImage` (feed_image.dfy): the RSS variant.
  - Class `FeedImageCache` has the cached file as a field. `WriteBytes` models `_write_bytes`.
    `UpdateImage` models `update_image` step by step, with early returns.
  - `UpdateImage` is proved against the function `Download`, which gives the bytes a cycle
    reaches the write with.
- `DatedImage` (dated_image.dfy): the dated variant.
  - `DateString` models `strftime("%d_%m_%y")` and `Format` models `URL.format(date=...)`.
  - Class `DatedImageCache` has `UpdateImage`.

Inputs the code gets from the outside are parameters:
- the feed response and the image response (`fetch` maps the requested URL to its response);
- the XML parse (`parse` maps the feed text to `None` or to the list of items);
- the clock (`today`);
- the outcome of the file write.

The code has no retries, no backoff and no publication date, and its commit is not atomic:
`open(path, "wb")` truncates the file before writing. If a write raises, the file may be left
holding a prefix of the new bytes. `UpdateImage` states that this prefix, or the old file, is
all such a cycle can leave besides a full write.

## Model

| member | source | states |
|---|---|---|
| `ImageUrl.QuoteFrom` | custom_components/daily_fingerpori/image.py:67 | the position where `[^"']+` must stop: the first quote at or after a position, with no quote before it, or the end of the text |
| `ImageUrl.Search` | custom_components/daily_fingerpori/image.py:67 | `re.search` scans from the left: a reported match starts where the scanner matches, and no earlier start matches |
| `ImageUrl.ImageNameHasNoQuote` | custom_components/daily_fingerpori/image.py:67 | a string matched by group 1 contains neither `"` nor `'` |
| `ImageUrl.ImageNameIff` | custom_components/daily_fingerpori/image.py:67 | group 1 matches exactly the quote-free strings that end, in any case, in `.gif`, `.png`, `.jpg` or `.jpeg` with at least one character before the dot |
| `ImageUrl.MatchAtIsRegex` | custom_components/daily_fingerpori/image.py:67 | the scanner finds capture `c` at a position if and only if the pattern matches there with group 1 equal to `c` |
| `ImageUrl.RegexMatchUnique` | custom_components/daily_fingerpori/image.py:67-69 | at a given start the pattern has at most one group 1, so `m.group(1)` is determined |
| `ImageUrl.SearchIsLeftmost` | custom_components/daily_fingerpori/image.py:67-69 | the search returns `c` if and only if `c` is group 1 of the leftmost match |
| `ImageUrl.SearchNoneIff` | custom_components/daily_fingerpori/image.py:67-68 | the search returns nothing if and only if the pattern matches nowhere |
| `ImageUrl.CaptureShape` | custom_components/daily_fingerpori/image.py:67-69 | a found URL has at least 5 characters, no quote, and an image extension |
| `ImageUrl.EnclosureFirst` | custom_components/daily_fingerpori/image.py:60-63 | an enclosure `url` attribute is the chosen URL, whatever the item's body contains |
| `ImageUrl.EmptyEnclosureUrl` | custom_components/daily_fingerpori/image.py:60-73 | an enclosure whose `url` is empty does not fall back to the search, so the item has no URL |
| `ImageUrl.FallbackIsLeftmostMatch` | custom_components/daily_fingerpori/image.py:64-73 | without an enclosure `url`, the URL is group 1 of the leftmost match, and there is none exactly when nothing matches |
| `ImageUrl.FallbackUrlShape` | custom_components/daily_fingerpori/image.py:64-73 | a fallback URL is non-empty, so it passes the `if not img_url` check, has no quote, and ends in an image extension |
| `ImageUrl.ImgTagExample` | custom_components/daily_fingerpori/image.py:64-69 | for `<img src="a.JPG">` with no enclosure, the URL is `a.JPG` (the extension matches in any case) |
| `ImageUrl.MixedQuotesExample` | custom_components/daily_fingerpori/image.py:67 | `SRC="x.png'` matches: `src=` in any case, and the two quotes may differ |
| `ImageUrl.MatchAt` | custom_components/daily_fingerpori/image.py:67 | the pattern tried at one start: a capture lies between two quotes right after `src=`, has no quote, and ends in an image extension |
| `ImageUrl.CandidateUrl` | custom_components/daily_fingerpori/image.py:59-69 | `img_url`: the enclosure `url` when there is one; otherwise group 1 of the leftmost match of the pattern, which has at least 5 characters, no quote and an image extension, and `None` exactly when the pattern matches nowhere |
| `ImageUrl.ImageUrlOf` | custom_components/daily_fingerpori/image.py:59-73 | the URL that survives `if not img_url`: it is non-empty and equals `img_url`, and there is none exactly when `img_url` is `None` or empty |
| `FeedImage.Download` | custom_components/daily_fingerpori/image.py:39-82 | the bytes a cycle reaches the write with: only when the feed answered 200 with readable text, and only bytes some image request answered 200 with |
| `Io.AfterWrite` | custom_components/daily_fingerpori/image.py:22-24 | the file after a write: exactly the data when it succeeded, unchanged when opening raised, a prefix of the data when writing raised |
| `DatedImage.Format` | image.py:31 | `URL.format(date=...)`: with a `{date}` field, the URL contains at least as many characters as the date string |
| `DatedImage.DatedUrl` | image.py:29-31 | the URL for today: with a `{date}` field it has at least 8 characters (that it contains today's date string is `DatedImage.DatedUrlContainsDate`) |
| `DatedImage.FormatContains` | image.py:31 | with a `{date}` field, the formatted URL contains the date string at some position |
| `DatedImage.DatedUrlContainsDate` | image.py:29-31 | with a `{date}` field, the URL requested for today contains today's `dd_mm_yy` string |
| `FeedImage.FeedImageCache.WriteBytes` | custom_components/daily_fingerpori/image.py:22-24 | after a successful write the file holds exactly the data; if opening raised, the file is unchanged; if writing raised, the file holds a prefix of the data |
| `FeedImage.FeedImageCache.UpdateImage` | custom_components/daily_fingerpori/image.py:35-87 | when the cycle reaches no write, it returns `None` and the file is unchanged; otherwise the file is what the write leaves; a non-`None` result is exactly the downloaded bytes, and the file then holds them; no `Exception` escapes |
| `FeedImage.DownloadSome` | custom_components/daily_fingerpori/image.py:39-82 | a cycle reaches the write with `data` if and only if: the feed answers 200 with readable text, the text parses to at least one item, the first item yields a URL, and that URL answers 200 with body `data` |
| `FeedImage.FeedFailure` | custom_components/daily_fingerpori/image.py:39-42 | a feed request that raised or did not answer 200 writes nothing |
| `FeedImage.NoItems` | custom_components/daily_fingerpori/image.py:46-55 | a feed that does not parse, or has no item, writes nothing |
| `FeedImage.FirstItemOnly` | custom_components/daily_fingerpori/image.py:52-57 | two item lists with the same first item give the same result: later items never matter |
| `FeedImage.ImageFailure` | custom_components/daily_fingerpori/image.py:76-87 | an image request that raised or did not answer 200 writes nothing |
| `DatedImage.Pad2` | image.py:30 | a number below 100 is written as two digits whose value is that number |
| `DatedImage.DateString` | image.py:29-30 | the date string has 8 characters, `_` at positions 2 and 5, and digits elsewhere; the digits read back as the day, the month and the year modulo 100 |
| `DatedImage.DateStringSame` | image.py:30 | two dates give the same string if and only if day, month and year modulo 100 agree |
| `DatedImage.FormatInjective` | image.py:31 | substituting two date strings of equal length into a template with a `{date}` field gives equal URLs only when the strings are equal |
| `DatedImage.SameUrlIffSameDay` | image.py:29-31 | the requested URL depends only on the date string: two days get the same URL if and only if day, month and year modulo 100 agree |
| `DatedImage.DatedImageCache.UpdateImage` | image.py:28-44 | the templated URL for today is requested; on a 200 answer with a readable body, the file is what the write leaves, and the step returns the bytes when the write succeeded; any other answer, or a request that raised, returns `None` and leaves the file unchanged |

## Left out

- Networking (aiohttp sessions, `session.get`, `resp.text()`, `resp.read()`): only their results are modelled, as `Response` values. They may fail or raise.
- XML parsing and serialisation (`ET.fromstring`, `findall`, `find`, `ET.tostring`): `parse` is a parameter. An item is reduced to its first `<enclosure>`'s attributes and its serialised text.
- Case-insensitive matching is ASCII only. Python's Unicode `IGNORECASE` also equates a few non-ASCII letters with `s`, `i` and `k`, such as the long s. The scanner does not match those.
- Scheduling: `DataUpdateCoordinator`, refresh intervals, `async_refresh` and `async_add_executor_job`. `get_refresh_interval` in both `__init__.py` files is only an options lookup with a default, which sets the timer.
- Logging.
- Exceptions raised outside the request, the body read and the write are not modelled separately. Before the write (creating the `ClientSession`, leaving the feed's `async with` block) the top-level `except` turns them into `None` with the file unchanged, as `Response.Raised` does. After the write (leaving the image's `async with` block) they give `None` with the new file in place, which is `WriteOutcome.WriteRaised` with all bytes kept.
- Cancellation and other `BaseException` exits are not modelled. `except Exception` does not catch `asyncio.CancelledError`, so a cancelled cycle propagates it to the caller. If the cancellation arrives while the executor write is pending, the executor thread may still write the file.
- The `URL` and `FILENAME` constants: the constants module is not part of this model. The template is a parameter, made of literal text and `{date}` fields. `str.format` cannot fail on such a template, so a template with other fields, which would raise outside the `try`, is not modelled.
- `DatedImage.ValidDate` bounds the day by 31 and does not check month lengths. Formatting only needs the day to be below 100.
- The button, the configuration flow and the image entity that reads the file back: these are host plumbing.
