/**
 * The effects the refresh step depends on, reduced to values: what an HTTP
 * request produced, and what a blocking file write did to the cached file.
 * The network, the event loop and the file system are not modelled; their
 * results are inputs of the refresh step.
 */
module Io {
  import opened Wrappers

  newtype Byte = b: int | 0 <= b < 256

  type Bytes = seq<Byte>

  /**
   * The result of one `session.get(url)` as far as the refresh step sees it.
   * `Raised`: the request itself raised (connection error, timeout, bad URL).
   * `Answered(status, body)`: the server answered with `status`; `body` is
   * what reading the body (`resp.text()` or `resp.read()`) returns, or `None`
   * when reading it raised.
   */
  datatype Response<T> = Raised | Answered(status: int, body: Option<T>)

  /**
   * What `open(path, "wb")` followed by `f.write(data)` did.
   * `OpenRaised`: opening raised, so the file was not touched.
   * `WriteRaised(kept)`: the file was opened (and so truncated) but writing
   * raised after `kept` bytes had reached it. An exception raised after the
   * whole write (for instance while leaving an `async with` block) is
   * `WriteRaised(|data|)`: the new file is in place, yet the step returns `None`.
   */
  datatype WriteOutcome = Written | OpenRaised | WriteRaised(kept: nat)

  /** The first `n` bytes of `data`, or all of them when there are fewer. */
  function Prefix(data: Bytes, n: nat): (r: Bytes)
    ensures |r| <= |data| && r == data[..|r|]
    ensures |r| == if n < |data| then n else |data|
  {
    if n < |data| then data[..n] else data
  }

  /**
   * The cached file after writing `data` over a file that held `before`
   * (`None`: no file yet). The write is not atomic: `open(path, "wb")`
   * truncates first, so a write that raises leaves a prefix of `data`.
   */
  function AfterWrite(before: Option<Bytes>, data: Bytes, w: WriteOutcome): (r: Option<Bytes>)
    ensures w.Written? ==> r == Some(data)
    ensures w.OpenRaised? ==> r == before
    ensures w.WriteRaised? ==> r.Some? && |r.value| <= |data| && r.value == data[..|r.value|]
    ensures UnchangedOrPrefix(before, r, data)
  {
    match w
    case Written => Some(data)
    case OpenRaised => before
    case WriteRaised(kept) => Some(Prefix(data, kept))
  }

  /** Holds of `after` when it is `before` or some prefix of `data`: what a failed write can leave. */
  predicate UnchangedOrPrefix(before: Option<Bytes>, after: Option<Bytes>, data: Bytes)
  {
    after == before || (after.Some? && |after.value| <= |data| && after.value == data[..|after.value|])
  }
}
