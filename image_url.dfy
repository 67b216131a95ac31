/**
 * Choosing the comic's image URL from the newest feed item.
 *
 * The item is what `ET.fromstring` / `findall(".//item")` produced, reduced
 * to the two things the refresh step looks at: the attributes of its first
 * `<enclosure>` child (if it has one) and its serialisation `ET.tostring(item)`.
 * The fallback is the case-insensitive search
 *
 *     src=["']([^"']+\.(?:gif|png|jpe?g))["']
 *
 * written out as a leftmost-match scanner (`Search`) and proved equal to a
 * declarative reading of the pattern (`RegexMatch`).
 */
module ImageUrl {
  import opened Wrappers

  /** One `<item>` of the feed. */
  datatype Item = Item(enclosure: Option<map<string, string>>, xml: string)

  /** Where the scanner found a match: its start and the text of group 1. */
  datatype Found = Found(start: nat, capture: string)

  // ---------------------------------------------------------------------------
  // Characters under IGNORECASE

  /** ASCII lower-casing; every other character is left as it is. */
  function Lower(c: char): char
  {
    if 'A' <= c <= 'Z' then (c as int - 'A' as int + 'a' as int) as char else c
  }

  predicate IsQuote(c: char)
  {
    c == '"' || c == '\''
  }

  /** `s` matches the lower-case literal `pat` when case is ignored. */
  predicate FoldEq(s: string, pat: string)
  {
    |s| == |pat| && forall k :: 0 <= k < |s| ==> Lower(s[k]) == pat[k]
  }

  /** Every character of `t` is matched by `[^"']`. */
  predicate NoQuote(t: string)
  {
    forall k :: 0 <= k < |t| ==> !IsQuote(t[k])
  }

  /** `t` is matched by `(?:gif|png|jpe?g)` when case is ignored. */
  predicate ImageExt(t: string)
  {
    FoldEq(t, "gif") || FoldEq(t, "png") || FoldEq(t, "jpg") || FoldEq(t, "jpeg")
  }

  // ---------------------------------------------------------------------------
  // The pattern, read declaratively

  /** `c` is matched by group 1, `[^"']+\.(?:gif|png|jpe?g)`. */
  ghost predicate ImageName(c: string)
  {
    exists k :: 1 <= k < |c| && c[k] == '.' && NoQuote(c[..k]) && ImageExt(c[k + 1..])
  }

  /** The whole pattern matches `s` from position `i` with group 1 equal to `c`. */
  ghost predicate RegexMatch(s: string, i: int, c: string)
  {
    0 <= i && i + 5 + |c| < |s|
    && FoldEq(s[i..i + 4], "src=") && IsQuote(s[i + 4])
    && s[i + 5..i + 5 + |c|] == c && ImageName(c)
    && IsQuote(s[i + 5 + |c|])
  }

  /** `c` is the group 1 of the leftmost match of the pattern in `s`, which starts at `i`. */
  ghost predicate LeftmostMatch(s: string, i: int, c: string)
  {
    RegexMatch(s, i, c) && forall j, c' :: 0 <= j < i ==> !RegexMatch(s, j, c')
  }

  // ---------------------------------------------------------------------------
  // The scanner

  /** The position of the first quote at or after `j`, or `|s|` when there is none. */
  function QuoteFrom(s: string, j: nat): (r: nat)
    requires j <= |s|
    ensures j <= r <= |s|
    ensures r < |s| ==> IsQuote(s[r])
    ensures forall k :: j <= k < r ==> !IsQuote(s[k])
    decreases |s| - j
  {
    if j == |s| || IsQuote(s[j]) then j else QuoteFrom(s, j + 1)
  }

  /** `c` ends in `.gif`, `.png`, `.jpg` or `.jpeg` (any case) with at least one character before the dot. */
  predicate EndsWithExt(c: string)
  {
    (|c| >= 5 && c[|c| - 4] == '.' && ImageExt(c[|c| - 3..]))
    || (|c| >= 6 && c[|c| - 5] == '.' && ImageExt(c[|c| - 4..]))
  }

  /**
   * Group 1 of a match starting at `i`, if there is one. After `src=` and a
   * quote, `[^"']+` and the extension can only run up to the next quote, so
   * the closing quote must be that one and the capture is everything before it.
   */
  function MatchAt(s: string, i: nat): (r: Option<string>)
    ensures r.Some? ==> i + 5 + |r.value| < |s| && s[i + 5..i + 5 + |r.value|] == r.value
    ensures r.Some? ==> IsQuote(s[i + 4]) && IsQuote(s[i + 5 + |r.value|])
    ensures r.Some? ==> FoldEq(s[i..i + 4], "src=")
    ensures r.Some? ==> NoQuote(r.value) && EndsWithExt(r.value)
  {
    if i + 5 <= |s| && FoldEq(s[i..i + 4], "src=") && IsQuote(s[i + 4]) then
      var e := QuoteFrom(s, i + 5);
      if e < |s| && EndsWithExt(s[i + 5..e]) then Some(s[i + 5..e]) else None
    else
      None
  }

  /** `re.search`: try every start from `from` on and report the first that matches. */
  function Search(s: string, from: nat): (r: Option<Found>)
    requires from <= |s|
    ensures r.Some? ==> from <= r.value.start < |s| && MatchAt(s, r.value.start) == Some(r.value.capture)
    ensures forall j :: from <= j < (if r.Some? then r.value.start else |s|) ==> MatchAt(s, j).None?
    decreases |s| - from
  {
    if from == |s| then None
    else
      match MatchAt(s, from)
      case Some(c) => Some(Found(from, c))
      case None => Search(s, from + 1)
  }

  // ---------------------------------------------------------------------------
  // The scanner is the pattern

  lemma ImageExtHasNoQuote(t: string)
    requires ImageExt(t)
    ensures NoQuote(t)
  {
    forall k | 0 <= k < |t| ensures !IsQuote(t[k]) {
      assert Lower(t[k]) in "gifpnjea";
    }
  }

  /** A string matched by group 1 contains no quote. */
  lemma ImageNameHasNoQuote(c: string)
    requires ImageName(c)
    ensures NoQuote(c)
  {
    var k :| 1 <= k < |c| && c[k] == '.' && NoQuote(c[..k]) && ImageExt(c[k + 1..]);
    ImageExtHasNoQuote(c[k + 1..]);
    forall m | 0 <= m < |c| ensures !IsQuote(c[m]) {
      if m < k {
        assert c[m] == c[..k][m];
      } else if m > k {
        assert c[m] == c[k + 1..][m - k - 1];
      }
    }
  }

  /** Group 1 is exactly a quote-free name that ends in an image extension. */
  lemma ImageNameIff(c: string)
    ensures ImageName(c) <==> NoQuote(c) && EndsWithExt(c)
  {
    if ImageName(c) {
      ImageNameHasNoQuote(c);
      var k :| 1 <= k < |c| && c[k] == '.' && NoQuote(c[..k]) && ImageExt(c[k + 1..]);
      assert |c[k + 1..]| == 3 || |c[k + 1..]| == 4;
    }
    if NoQuote(c) && EndsWithExt(c) {
      var k := if |c| >= 5 && c[|c| - 4] == '.' && ImageExt(c[|c| - 3..]) then |c| - 4 else |c| - 5;
      assert NoQuote(c[..k]) by {
        forall m | 0 <= m < k ensures !IsQuote(c[..k][m]) {
          assert c[..k][m] == c[m];
        }
      }
      assert 1 <= k < |c| && c[k] == '.' && ImageExt(c[k + 1..]);
    }
  }

  /** The first quote at or after `j` is at `p` when `p` holds a quote and nothing before it does. */
  lemma QuoteFromIs(s: string, j: nat, p: nat)
    requires j <= p < |s| && IsQuote(s[p])
    requires forall k :: j <= k < p ==> !IsQuote(s[k])
    ensures QuoteFrom(s, j) == p
  {
  }

  /** The scanner's result at `i` is exactly group 1 of the pattern matched from `i`. */
  lemma MatchAtIsRegex(s: string, i: nat, c: string)
    ensures MatchAt(s, i) == Some(c) <==> RegexMatch(s, i, c)
  {
    if MatchAt(s, i) == Some(c) {
      var e := QuoteFrom(s, i + 5);
      assert c == s[i + 5..e];
      assert NoQuote(c) by {
        forall m | 0 <= m < |c| ensures !IsQuote(c[m]) {
          assert c[m] == s[i + 5 + m];
        }
      }
      ImageNameIff(c);
    }
    if RegexMatch(s, i, c) {
      ImageNameIff(c);
      var p := i + 5 + |c|;
      forall k | i + 5 <= k < p ensures !IsQuote(s[k]) {
        assert s[k] == c[k - i - 5];
      }
      QuoteFromIs(s, i + 5, p);
    }
  }

  /** At one position the pattern has at most one capture. */
  lemma RegexMatchUnique(s: string, i: nat, c1: string, c2: string)
    requires RegexMatch(s, i, c1) && RegexMatch(s, i, c2)
    ensures c1 == c2
  {
    MatchAtIsRegex(s, i, c1);
    MatchAtIsRegex(s, i, c2);
  }

  /** The scanner finds `c` exactly when `c` is group 1 of the leftmost match in `s`. */
  lemma SearchIsLeftmost(s: string, c: string)
    ensures (Search(s, 0).Some? && Search(s, 0).value.capture == c) <==> exists i :: LeftmostMatch(s, i, c)
  {
    var r := Search(s, 0);
    if r.Some? && r.value.capture == c {
      var i := r.value.start;
      MatchAtIsRegex(s, i, c);
      forall j, c' | 0 <= j < i ensures !RegexMatch(s, j, c') {
        MatchAtIsRegex(s, j, c');
      }
      assert LeftmostMatch(s, i, c);
    }
    if i :| LeftmostMatch(s, i, c) {
      MatchAtIsRegex(s, i, c);
      if r.Some? {
        MatchAtIsRegex(s, r.value.start, r.value.capture);
      }
    }
  }

  /** The scanner finds nothing exactly when the pattern matches nowhere in `s`. */
  lemma SearchNoneIff(s: string)
    ensures Search(s, 0).None? <==> forall i, c :: !RegexMatch(s, i, c)
  {
    var r := Search(s, 0);
    if r.None? {
      forall i, c ensures !RegexMatch(s, i, c) {
        if 0 <= i < |s| {
          MatchAtIsRegex(s, i, c);
        }
      }
    } else {
      MatchAtIsRegex(s, r.value.start, r.value.capture);
    }
  }

  /** What the scanner returns is a non-empty quote-free name ending in an image extension. */
  lemma CaptureShape(s: string)
    requires Search(s, 0).Some?
    ensures var c := Search(s, 0).value.capture;
      |c| >= 5 && NoQuote(c) && EndsWithExt(c)
  {
    var f := Search(s, 0).value;
    MatchAtIsRegex(s, f.start, f.capture);
    ImageNameIff(f.capture);
  }

  // ---------------------------------------------------------------------------
  // Choosing the URL

  /** The item has an `<enclosure>` child carrying a `url` attribute. */
  predicate HasEnclosureUrl(item: Item)
  {
    item.enclosure.Some? && "url" in item.enclosure.value
  }

  /**
   * `img_url` before the emptiness check: the enclosure's `url` attribute
   * when there is one, else group 1 of the first match in the serialised
   * item, else `None`.
   */
  function CandidateUrl(item: Item): (r: Option<string>)
    ensures HasEnclosureUrl(item) ==> r == Some(item.enclosure.value["url"])
    ensures !HasEnclosureUrl(item) && r.Some? ==> |r.value| >= 5 && NoQuote(r.value) && EndsWithExt(r.value)
    ensures !HasEnclosureUrl(item) && r.Some? ==> exists i :: LeftmostMatch(item.xml, i, r.value)
    ensures !HasEnclosureUrl(item) ==> (r.None? <==> forall i, c :: !RegexMatch(item.xml, i, c))
  {
    if HasEnclosureUrl(item) then Some(item.enclosure.value["url"])
    else
      SearchNoneIff(item.xml);
      match Search(item.xml, 0)
      case Some(f) => SearchIsLeftmost(item.xml, f.capture); Some(f.capture)
      case None => None
  }

  /** The URL the refresh step downloads: `None` when `img_url` is `None` or empty. */
  function ImageUrlOf(item: Item): (r: Option<string>)
    ensures r.Some? ==> r.value != "" && r == CandidateUrl(item)
    ensures r.None? <==> CandidateUrl(item) == None || CandidateUrl(item) == Some("")
  {
    match CandidateUrl(item)
    case Some(u) => if u == "" then None else Some(u)
    case None => None
  }

  /** An enclosure `url` wins over any `src=` reference in the item's body. */
  lemma EnclosureFirst(item: Item, body: string)
    requires HasEnclosureUrl(item)
    ensures CandidateUrl(item) == CandidateUrl(item.(xml := body)) == Some(item.enclosure.value["url"])
  {
  }

  /** An enclosure whose `url` is empty does not fall back to the search: there is no URL. */
  lemma EmptyEnclosureUrl(item: Item)
    requires HasEnclosureUrl(item) && item.enclosure.value["url"] == ""
    ensures ImageUrlOf(item) == None
  {
  }

  /**
   * Without an enclosure `url`, the URL is group 1 of the leftmost match of
   * the pattern in the serialised item, and there is none when nothing matches.
   */
  lemma FallbackIsLeftmostMatch(item: Item, c: string)
    requires !HasEnclosureUrl(item)
    ensures ImageUrlOf(item) == Some(c) <==> exists i :: LeftmostMatch(item.xml, i, c)
    ensures ImageUrlOf(item) == None <==> forall i, c' :: !RegexMatch(item.xml, i, c')
  {
    SearchIsLeftmost(item.xml, c);
    SearchNoneIff(item.xml);
    if Search(item.xml, 0).Some? {
      CaptureShape(item.xml);
    }
  }

  /** A URL found by the fallback search is non-empty, quote-free and ends in an image extension. */
  lemma FallbackUrlShape(item: Item)
    requires !HasEnclosureUrl(item) && CandidateUrl(item).Some?
    ensures var u := CandidateUrl(item).value;
      u != "" && NoQuote(u) && EndsWithExt(u) && ImageUrlOf(item) == Some(u)
  {
    CaptureShape(item.xml);
  }

  /** `<img src="a.JPG">` with no enclosure: the fallback picks `a.JPG`. */
  lemma ImgTagExample()
    ensures ImageUrlOf(Item(None, "<img src=\"a.JPG\">")) == Some("a.JPG")
  {
    var s := "<img src=\"a.JPG\">";
    forall j | 0 <= j < 5 ensures MatchAt(s, j).None? {
      assert Lower(s[j]) != 's' && s[j..j + 4][0] == s[j];
    }
    assert Lower(s[5]) == 's' && Lower(s[6]) == 'r' && Lower(s[7]) == 'c' && Lower(s[8]) == '=';
    assert FoldEq(s[5..9], "src=");
    QuoteFromIs(s, 10, 15);
    assert s[10..15] == "a.JPG";
    assert FoldEq(s[10..15][2..], "jpg");
    assert MatchAt(s, 5) == Some("a.JPG");
  }

  /** The two quotes need not be the same character. */
  lemma MixedQuotesExample()
    ensures MatchAt("SRC=\"x.png'", 0) == Some("x.png")
  {
    var s := "SRC=\"x.png'";
    assert Lower(s[0]) == 's' && Lower(s[1]) == 'r' && Lower(s[2]) == 'c' && Lower(s[3]) == '=';
    assert FoldEq(s[0..4], "src=");
    QuoteFromIs(s, 5, 10);
    assert s[5..10] == "x.png";
    assert FoldEq(s[5..10][2..], "png");
  }
}
