/**
 * The product-link helpers of the wish lists: pulling the ASIN out of an Amazon
 * product URL, the image URL of an ASIN, and the search URL of a free-text query.
 */
module Amazon {
  import opened Wrappers
  import opened Ascii

  /** An ASIN is ten word characters. */
  const AsinLength := 10

  /**
   * The alternatives of the pattern `(?:dp|gp\/product|ASIN)\/`, in the order the
   * regular expression tries them. The pattern is case-insensitive, so they are
   * written upper-case and compared with the upper-cased text.
   */
  const Alternatives: seq<string> := ["DP/", "GP/PRODUCT/", "ASIN/"]

  /** The text at `p` is `alt`, ignoring case. */
  predicate PrefixAt(url: string, p: nat, alt: string) {
    p + |alt| <= |url| && Upper(url[p..p + |alt|]) == alt
  }

  /** `alt` at `p`, then `\w{10}`. */
  predicate AsinAt(url: string, p: nat, alt: string) {
    && PrefixAt(url, p, alt)
    && p + |alt| + AsinLength <= |url|
    && forall i :: p + |alt| <= i < p + |alt| + AsinLength ==> IsWordChar(url[i])
  }

  /** The capture group of the first of `alts` that matches at `p`. */
  function FirstAlternative(url: string, p: nat, alts: seq<string>): (r: Option<string>)
    ensures r.Some? ==> |r.value| == AsinLength && forall i :: 0 <= i < |r.value| ==> IsWordChar(r.value[i])
    ensures r.None? <==> forall k :: 0 <= k < |alts| ==> !AsinAt(url, p, alts[k])
  {
    if alts == [] then None
    else if AsinAt(url, p, alts[0]) then Some(url[p + |alts[0]|..p + |alts[0]| + AsinLength])
    else
      var rest := FirstAlternative(url, p, alts[1..]);
      assert forall k :: 1 <= k < |alts| ==> alts[k] == alts[1..][k - 1];
      rest
  }

  /** What the pattern captures when the match starts at `p`, if it matches there. */
  function MatchAt(url: string, p: nat): Option<string> {
    FirstAlternative(url, p, Alternatives)
  }

  /** The alternatives begin with different letters, so at most one of them matches at a position. */
  lemma AlternativesExclusive(url: string, p: nat, k: nat, m: nat)
    requires k < |Alternatives| && m < |Alternatives|
    requires PrefixAt(url, p, Alternatives[k]) && PrefixAt(url, p, Alternatives[m])
    ensures k == m
  {
    assert Upper(url[p..p + |Alternatives[k]|])[0] == ToUpper(url[p]) == Alternatives[k][0];
    assert Upper(url[p..p + |Alternatives[m]|])[0] == ToUpper(url[p]) == Alternatives[m][0];
  }

  /**
   * A position matches exactly when one of the alternatives followed by ten word
   * characters stands there, and the capture is the ten characters after it;
   * the order in which the alternatives are tried makes no difference.
   */
  lemma MatchAtExact(url: string, p: nat, k: nat)
    requires k < |Alternatives|
    ensures AsinAt(url, p, Alternatives[k]) ==>
      MatchAt(url, p) == Some(url[p + |Alternatives[k]|..p + |Alternatives[k]| + AsinLength])
  {
    var a := Alternatives;
    if AsinAt(url, p, a[k]) {
      forall m | 0 <= m < k ensures !AsinAt(url, p, a[m]) {
        if AsinAt(url, p, a[m]) {
          AlternativesExclusive(url, p, k, m);
        }
      }
      assert a[1..] == [a[1], a[2]] && a[1..][1..] == [a[2]];
      if k == 1 {
        assert FirstAlternative(url, p, a) == FirstAlternative(url, p, a[1..]);
      } else if k == 2 {
        assert FirstAlternative(url, p, a) == FirstAlternative(url, p, a[1..]);
        assert FirstAlternative(url, p, a[1..]) == FirstAlternative(url, p, a[1..][1..]);
      }
    }
  }

  /** The regular expression's search: try each start position from `p` on, the leftmost match wins. */
  function Search(url: string, p: nat): (r: Option<string>)
    decreases |url| + 1 - p
    ensures r.None? <==> forall q :: p <= q <= |url| ==> MatchAt(url, q).None?
    ensures r.Some? ==>
      exists q :: p <= q <= |url| && MatchAt(url, q) == r && forall q' :: p <= q' < q ==> MatchAt(url, q').None?
  {
    if p > |url| then None
    else
      match MatchAt(url, p)
      case Some(asin) => Some(asin)
      case None => Search(url, p + 1)
  }

  /**
   * `extractAsin`: the ten word characters after the leftmost `dp/`, `gp/product/`
   * or `ASIN/` (in any casing) that has ten of them; none when no position has one.
   */
  function ExtractAsin(url: string): (r: Option<string>)
    ensures r.None? <==> forall q :: 0 <= q <= |url| ==> MatchAt(url, q).None?
    ensures r.Some? ==> |r.value| == AsinLength && forall i :: 0 <= i < AsinLength ==> IsWordChar(r.value[i])
    ensures r.Some? ==>
      exists q :: 0 <= q <= |url| && MatchAt(url, q) == r && forall q' :: 0 <= q' < q ==> MatchAt(url, q').None?
  {
    Search(url, 0)
  }

  /**
   * A link that starts with one of the markers yields the ten characters after it,
   * whatever follows them: the pattern has no end boundary, so a longer run of word
   * characters is cut to its first ten.
   */
  lemma LeadingMarker(marker: string, asin: string, rest: string)
    requires Upper(marker) in Alternatives
    requires |asin| == AsinLength && forall i :: 0 <= i < |asin| ==> IsWordChar(asin[i])
    ensures ExtractAsin(marker + asin + rest) == Some(asin)
  {
    var url := marker + asin + rest;
    var k :| 0 <= k < |Alternatives| && Alternatives[k] == Upper(marker);
    var alt := Alternatives[k];
    assert |alt| == |marker|;
    assert url[0..|marker|] == marker;
    assert url[|marker|..|marker| + AsinLength] == asin;
    assert forall i :: |marker| <= i < |marker| + AsinLength ==> url[i] == asin[i - |marker|];
    assert AsinAt(url, 0, alt);
    MatchAtExact(url, 0, k);
    assert MatchAt(url, 0) == Some(asin);
  }

  // ---------------------------------------------------------------- image and search links

  const ImagePrefix := "https://m.media-amazon.com/images/I/"
  const ImageSuffix := "._SL500_.jpg"

  /** `buildAmazonImageFromAsin`: no image for a missing ASIN. */
  function BuildAmazonImageFromAsin(asin: string): (r: Option<string>)
    ensures r.None? <==> asin == ""
  {
    if asin == "" then None else Some(ImagePrefix + asin + ImageSuffix)
  }

  /** Reads the ASIN back out of an image link of the shape built above. */
  function ImageAsin(url: string): Option<string> {
    if |url| >= |ImagePrefix| + |ImageSuffix|
       && url[..|ImagePrefix|] == ImagePrefix
       && url[|url| - |ImageSuffix|..] == ImageSuffix
    then Some(url[|ImagePrefix|..|url| - |ImageSuffix|])
    else None
  }

  /** The image link determines its ASIN: building and reading back is the identity. */
  lemma ImageRoundTrip(asin: string)
    requires asin != ""
    ensures ImageAsin(BuildAmazonImageFromAsin(asin).value) == Some(asin)
  {
    var url := ImagePrefix + asin + ImageSuffix;
    assert url[..|ImagePrefix|] == ImagePrefix;
    assert url[|url| - |ImageSuffix|..] == ImageSuffix;
    assert url[|ImagePrefix|..|url| - |ImageSuffix|] == asin;
  }

  /** Two ASINs with the same image (or both without one) are the same ASIN. */
  lemma ImageInjective(a: string, b: string)
    requires BuildAmazonImageFromAsin(a) == BuildAmazonImageFromAsin(b)
    ensures a == b
  {
    if a != "" && b != "" {
      ImageRoundTrip(a);
      ImageRoundTrip(b);
    }
  }

  /** ECMAScript's WhiteSpace and LineTerminator code points, which `trim` strips. */
  predicate IsWhite(c: char) {
    var n := c as int;
    || n == 0x09 || n == 0x0A || n == 0x0B || n == 0x0C || n == 0x0D || n == 0x20
    || n == 0xA0 || n == 0x1680 || (0x2000 <= n <= 0x200A) || n == 0x2028 || n == 0x2029
    || n == 0x202F || n == 0x205F || n == 0x3000 || n == 0xFEFF
  }

  predicate AllWhite(s: string) {
    forall i :: 0 <= i < |s| ==> IsWhite(s[i])
  }

  /** The index of the first character that is not white space; `|s|` when there is none. */
  function TextStart(s: string): (i: nat)
    ensures i <= |s|
    ensures forall k :: 0 <= k < i ==> IsWhite(s[k])
    ensures i < |s| ==> !IsWhite(s[i])
  {
    if s == [] || !IsWhite(s[0]) then 0
    else
      var i := TextStart(s[1..]);
      assert forall k :: 1 <= k < 1 + i ==> s[k] == s[1..][k - 1];
      1 + i
  }

  /** The index just past the last character that is not white space; `0` when there is none. */
  function TextEnd(s: string): (j: nat)
    ensures j <= |s|
    ensures forall k :: j <= k < |s| ==> IsWhite(s[k])
    ensures 0 < j ==> !IsWhite(s[j - 1])
  {
    if s == [] || !IsWhite(s[|s| - 1]) then |s|
    else
      var j := TextEnd(s[..|s| - 1]);
      assert forall k :: j <= k < |s| - 1 ==> s[k] == s[..|s| - 1][k];
      j
  }

  /** Every character of `s` outside `s[i..j]` is white space. */
  predicate WhiteOutside(s: string, i: int, j: int)
    requires 0 <= i <= j <= |s|
  {
    forall k :: 0 <= k < |s| && !(i <= k < j) ==> IsWhite(s[k])
  }

  /**
   * `String.prototype.trim`: what remains is a contiguous piece of the input that
   * neither starts nor ends with white space, and everything cut off is white space.
   */
  function Trim(s: string): (r: string)
    ensures r == [] || (!IsWhite(r[0]) && !IsWhite(r[|r| - 1]))
    ensures exists i, j :: 0 <= i <= j <= |s| && WhiteOutside(s, i, j) && r == s[i..j]
  {
    var j := TextEnd(s);
    var i := TextStart(s[..j]);
    assert forall k :: 0 <= k < i ==> s[k] == s[..j][k];
    assert WhiteOutside(s, i, j);
    assert i < j ==> s[i] == s[..j][i];
    s[i..j]
  }

  /** A cut that strips only white space and leaves none at either end. */
  predicate TrimCut(s: string, i: int, j: int) {
    && 0 <= i <= j <= |s|
    && WhiteOutside(s, i, j)
    && (i == j || (!IsWhite(s[i]) && !IsWhite(s[j - 1])))
  }

  /** There is only one such cut's worth of text, and `Trim` returns it. */
  lemma TrimUnique(s: string, i: int, j: int)
    requires TrimCut(s, i, j)
    ensures Trim(s) == s[i..j]
  {
  }

  /** Trimming twice is trimming once. */
  lemma TrimIdempotent(s: string)
    ensures Trim(Trim(s)) == Trim(s)
  {
    var r := Trim(s);
    assert r[0..|r|] == r;
    TrimUnique(r, 0, |r|);
  }

  /** Padding a text with white space keeps everything outside the same piece white. */
  lemma PaddingOutside(left: string, s: string, right: string, i: int, j: int)
    requires AllWhite(left) && AllWhite(right)
    requires 0 <= i <= j <= |s| && WhiteOutside(s, i, j)
    ensures WhiteOutside(left + s + right, |left| + i, |left| + j)
  {
    var t := left + s + right;
    forall k | 0 <= k < |t| && !(|left| + i <= k < |left| + j) ensures IsWhite(t[k]) {
      if k < |left| {
        assert t[k] == left[k];
      } else if k < |left| + |s| {
        assert t[k] == s[k - |left|];
      } else {
        assert t[k] == right[k - |left| - |s|];
      }
    }
  }

  /** A piece of the text is the same piece of the padded text, shifted by the left padding. */
  lemma PaddedPiece(left: string, s: string, right: string, i: int, j: int)
    requires 0 <= i <= j <= |s|
    ensures (left + s + right)[|left| + i..|left| + j] == s[i..j]
  {
    var t := left + s + right;
    forall k | 0 <= k < j - i ensures t[|left| + i..|left| + j][k] == s[i..j][k] {
      assert t[|left| + i + k] == s[i + k];
    }
  }

  /** The cut `Trim` takes is a `TrimCut`. */
  lemma TrimCutOf(s: string) returns (i: int, j: int)
    ensures TrimCut(s, i, j) && Trim(s) == s[i..j]
  {
    j := TextEnd(s);
    i := TextStart(s[..j]);
    assert forall k :: 0 <= k < i ==> s[k] == s[..j][k];
    assert i < j ==> s[i] == s[..j][i];
    assert WhiteOutside(s, i, j);
  }

  /** The same cut, shifted past the left padding, is a cut of the padded text. */
  lemma PaddedCut(left: string, s: string, right: string, i: int, j: int)
    requires AllWhite(left) && AllWhite(right)
    requires TrimCut(s, i, j)
    ensures TrimCut(left + s + right, |left| + i, |left| + j)
  {
    var t := left + s + right;
    PaddingOutside(left, s, right, i, j);
    if i < j {
      assert t[|left| + i] == s[i];
      assert t[|left| + j - 1] == s[j - 1];
    }
  }

  /** White space added on either side of a text is stripped with the rest. */
  lemma TrimPadding(left: string, s: string, right: string)
    requires AllWhite(left) && AllWhite(right)
    ensures Trim(left + s + right) == Trim(s)
  {
    var i, j := TrimCutOf(s);
    PaddedCut(left, s, right, i, j);
    PaddedPiece(left, s, right, i, j);
    TrimUnique(left + s + right, |left| + i, |left| + j);
  }

  const AmazonHome := "https://www.amazon.com/"
  const SearchPath := "s?k="

  /**
   * `buildAmazonSearchUrl`: the home page for a query that is empty after trimming,
   * otherwise the search page for the trimmed query. `encode` stands for
   * `encodeURIComponent`.
   */
  function BuildAmazonSearchUrl(query: string, encode: string -> string): (r: string)
    ensures |r| >= |AmazonHome| && r[..|AmazonHome|] == AmazonHome
    ensures r == AmazonHome <==> Trim(query) == ""
  {
    var trimmed := Trim(query);
    if trimmed == "" then AmazonHome else AmazonHome + SearchPath + encode(trimmed)
  }

  /** Reads the encoded query back out of a search link of the shape built above. */
  function SearchTerm(url: string): Option<string> {
    var start := |AmazonHome| + |SearchPath|;
    if |url| >= start && url[..start] == AmazonHome + SearchPath then Some(url[start..]) else None
  }

  /**
   * The search link of a query that is not blank is the search page followed by the
   * encoded trimmed query, which reads back out of it; a blank query has no search term.
   */
  lemma SearchRoundTrip(query: string, encode: string -> string)
    ensures SearchTerm(BuildAmazonSearchUrl(query, encode))
         == if Trim(query) == "" then None else Some(encode(Trim(query)))
  {
    var url := BuildAmazonSearchUrl(query, encode);
    var start := |AmazonHome| + |SearchPath|;
    if Trim(query) != "" {
      assert url[..start] == AmazonHome + SearchPath;
      assert url[start..] == encode(Trim(query));
    }
  }

  /** The search link ignores the white space around a query. */
  lemma SearchIgnoresPadding(query: string, encode: string -> string)
    ensures BuildAmazonSearchUrl(Trim(query), encode) == BuildAmazonSearchUrl(query, encode)
  {
    TrimIdempotent(query);
  }

  /** Padding a query with white space on either side gives the same link. */
  lemma SearchPadded(left: string, query: string, right: string, encode: string -> string)
    requires AllWhite(left) && AllWhite(right)
    ensures BuildAmazonSearchUrl(left + query + right, encode) == BuildAmazonSearchUrl(query, encode)
  {
    TrimPadding(left, query, right);
  }
}
