/**
 * The refresh step of the older, date-templated integration (`update_image`
 * in the repository-root image.py; defined twice, identically, once per
 * setup path). It formats today's UTC date as `dd_mm_yy`, substitutes it into
 * the `URL` template, downloads that URL and, on a 200 answer, overwrites the
 * cached file with the bytes. Anything else returns `None`.
 */
module DatedImage {
  import opened Wrappers
  import opened Io

  /** The calendar part of `dt_util.utcnow()`, within Python's `datetime` ranges. */
  datatype Date = Date(year: int, month: int, day: int)

  predicate ValidDate(d: Date)
  {
    1 <= d.year <= 9999 && 1 <= d.month <= 12 && 1 <= d.day <= 31
  }

  // ---------------------------------------------------------------------------
  // strftime("%d_%m_%y")

  function DigitChar(n: int): (c: char)
    requires 0 <= n < 10
    ensures '0' <= c <= '9'
  {
    "0123456789"[n]
  }

  function DigitValue(c: char): int
  {
    c as int - '0' as int
  }

  predicate IsDigit(c: char)
  {
    '0' <= c <= '9'
  }

  /** `n` written with two digits, zero-padded. */
  function Pad2(n: int): (r: string)
    requires 0 <= n < 100
    ensures |r| == 2 && IsDigit(r[0]) && IsDigit(r[1])
    ensures 10 * DigitValue(r[0]) + DigitValue(r[1]) == n
  {
    [DigitChar(n / 10), DigitChar(n % 10)]
  }

  /** The value of the two digits `s[i]`, `s[i + 1]`. */
  function Read2(s: string, i: nat): int
    requires i + 2 <= |s|
  {
    10 * DigitValue(s[i]) + DigitValue(s[i + 1])
  }

  /** `strftime("%d_%m_%y")`: day, month and the year's last two digits, each zero-padded. */
  function DateString(d: Date): (r: string)
    requires ValidDate(d)
    ensures |r| == 8 && r[2] == '_' && r[5] == '_'
    ensures forall k :: 0 <= k < 8 && k != 2 && k != 5 ==> IsDigit(r[k])
    ensures Read2(r, 0) == d.day && Read2(r, 3) == d.month && Read2(r, 6) == d.year % 100
  {
    Pad2(d.day) + "_" + Pad2(d.month) + "_" + Pad2(d.year % 100)
  }

  /** Two dates give the same string exactly when day, month and year modulo 100 agree. */
  lemma DateStringSame(d1: Date, d2: Date)
    requires ValidDate(d1) && ValidDate(d2)
    ensures DateString(d1) == DateString(d2) <==>
      d1.day == d2.day && d1.month == d2.month && d1.year % 100 == d2.year % 100
  {
    if DateString(d1) == DateString(d2) {
      assert Read2(DateString(d1), 0) == Read2(DateString(d2), 0);
      assert Read2(DateString(d1), 3) == Read2(DateString(d2), 3);
      assert Read2(DateString(d1), 6) == Read2(DateString(d2), 6);
    }
  }

  // ---------------------------------------------------------------------------
  // URL.format(date=date_str)

  /** A piece of the `URL` template: literal text, or the `{date}` field. */
  datatype Segment = Text(text: string) | DateField

  predicate HasDateField(t: seq<Segment>)
  {
    exists k :: 0 <= k < |t| && t[k] == DateField
  }

  /** `str.format` of the template with `date` in every `{date}` field. */
  function Format(t: seq<Segment>, date: string): (r: string)
    ensures HasDateField(t) ==> |r| >= |date|
  {
    if t == [] then ""
    else
      match t[0]
      case Text(s) => HasDateFieldTail(t); s + Format(t[1..], date)
      case DateField => date + Format(t[1..], date)
  }

  /** A field that is not the first segment is a field of the rest of the template. */
  lemma HasDateFieldTail(t: seq<Segment>)
    requires t != [] && t[0] != DateField
    ensures HasDateField(t) ==> HasDateField(t[1..])
  {
    if HasDateField(t) {
      var k :| 0 <= k < |t| && t[k] == DateField;
      assert t[1..][k - 1] == DateField;
    }
  }

  /** With a `{date}` field, the formatted URL contains `date` at position `p`. */
  lemma {:induction false} FormatContains(t: seq<Segment>, date: string) returns (p: nat)
    requires HasDateField(t)
    ensures p + |date| <= |Format(t, date)| && Format(t, date)[p..p + |date|] == date
  {
    match t[0]
    case DateField =>
      p := 0;
    case Text(s) =>
      HasDateFieldTail(t);
      var q := FormatContains(t[1..], date);
      p := |s| + q;
      assert Format(t, date) == s + Format(t[1..], date);
  }

  /** Filling a template that has a `{date}` field with equally long strings gives equal URLs only for equal strings. */
  lemma {:induction false} FormatInjective(t: seq<Segment>, a: string, b: string)
    requires HasDateField(t) && |a| == |b|
    requires Format(t, a) == Format(t, b)
    ensures a == b
  {
    var restA, restB := Format(t[1..], a), Format(t[1..], b);
    match t[0]
    case DateField =>
      assert a == Format(t, a)[..|a|] == Format(t, b)[..|b|] == b;
    case Text(s) =>
      assert restA == Format(t, a)[|s|..] == Format(t, b)[|s|..] == restB;
      var k :| 0 <= k < |t| && t[k] == DateField;
      assert t[1..][k - 1] == DateField;
      FormatInjective(t[1..], a, b);
  }

  /** The URL requested for `today`. */
  function DatedUrl(template: seq<Segment>, today: Date): (r: string)
    requires ValidDate(today)
    ensures HasDateField(template) ==> |r| >= 8
  {
    Format(template, DateString(today))
  }

  /** With a `{date}` field, the URL for `today` contains today's date string. */
  lemma DatedUrlContainsDate(template: seq<Segment>, today: Date) returns (p: nat)
    requires ValidDate(today) && HasDateField(template)
    ensures p + 8 <= |DatedUrl(template, today)| && DatedUrl(template, today)[p..p + 8] == DateString(today)
  {
    p := FormatContains(template, DateString(today));
  }

  /**
   * With a `{date}` field in the template, two days get the same URL exactly
   * when day, month and year modulo 100 agree: the URL depends on the date
   * string alone, and every date string gives its own URL.
   */
  lemma SameUrlIffSameDay(template: seq<Segment>, d1: Date, d2: Date)
    requires ValidDate(d1) && ValidDate(d2) && HasDateField(template)
    ensures DatedUrl(template, d1) == DatedUrl(template, d2) <==>
      d1.day == d2.day && d1.month == d2.month && d1.year % 100 == d2.year % 100
  {
    DateStringSame(d1, d2);
    if DatedUrl(template, d1) == DatedUrl(template, d2) {
      FormatInjective(template, DateString(d1), DateString(d2));
    }
  }

  // ---------------------------------------------------------------------------
  // The cached file and the refresh step

  class DatedImageCache {
    /** The `URL` constant, with its `{date}` field. */
    const template: seq<Segment>
    /** The contents of the file at `image_path`; `None` while none was ever written. */
    var cached: Option<Bytes>

    constructor (template: seq<Segment>, existing: Option<Bytes>)
      ensures this.template == template && cached == existing
    {
      this.template := template;
      cached := existing;
    }

    /**
     * `update_image`. `today` is `dt_util.utcnow()`, `fetch` stands for the
     * request made with the templated URL and `w` for what the inline
     * `open(image_path, "wb")` / `f.write(data)` does.
     */
    method UpdateImage(today: Date, fetch: string -> Response<Bytes>, w: WriteOutcome)
      returns (r: Option<Bytes>)
      requires ValidDate(today)
      modifies this
      ensures var image := fetch(DatedUrl(template, today));
        if image.Answered? && image.status == 200 && image.body.Some? then
          cached == AfterWrite(old(cached), image.body.value, w)
          && r == (if w.Written? then image.body else None)
        else
          r.None? && cached == old(cached)
      ensures r.Some? ==> fetch(DatedUrl(template, today)) == Answered(200, r) && cached == r
    {
      var dateStr := DateString(today);
      var url := Format(template, dateStr);

      var image := fetch(url);
      if image.Raised? {
        return None;
      }
      if image.status == 200 {
        if image.body.None? {
          return None;
        }
        var data := image.body.value;
        if w.OpenRaised? {
          return None;
        }
        cached := Some([]);
        if w.WriteRaised? {
          cached := Some(Prefix(data, w.kept));
          return None;
        }
        cached := Some(data);
        return Some(data);
      }
      return None;
    }
  }
}
