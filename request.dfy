/** `convertRequestToUrlWithQuery` of tab.js without its page wiring: the
    `url` and `post_data` values are found by two regular expressions
    (modelled as leftmost-match scans), the post data is parsed leniently and
    flattened, and the query string is joined onto the URL. */
module Request {
  import opened Text
  import opened Json
  import opened Prepass
  import opened Pipeline
  import opened Query

  /** `["'`]`, the quote class of the url regular expression. */
  predicate IsUrlQuote(c: char) {
    c == '"' || c == '\'' || c == '`'
  }

  /** The first index at or after i holding a url quote (|s| if none). */
  function UrlQuoteFrom(s: string, i: nat): (r: nat)
    requires i <= |s|
    ensures i <= r <= |s|
    ensures forall k :: i <= k < r ==> !IsUrlQuote(s[k])
    ensures r == |s| || IsUrlQuote(s[r])
    decreases |s| - i
  {
    if i == |s| || IsUrlQuote(s[i]) then i else UrlQuoteFrom(s, i + 1)
  }

  /** The group of `/url:\s*["'`]\s*([^"'`]+)\s*["'`]/` when a match starts at
      i. The group runs to the next quote; when only whitespace stands before
      that quote, the leading `\s*` gives one character back. */
  function UrlAt(s: string, i: nat): (r: Option<string>)
    requires i <= |s|
    ensures r.Some? ==> |r.value| > 0 && forall k :: 0 <= k < |r.value| ==> !IsUrlQuote(r.value[k])
  {
    if StartsWith(s[i..], "url:") then
      var j := NextNonSpace(s, i + 4);
      if j < |s| && IsUrlQuote(s[j]) then
        var w := NextNonSpace(s, j + 1);
        var e := UrlQuoteFrom(s, j + 1);
        if e == |s| || e == j + 1 then None
        else if w < e then Some(s[w..e])
        else Some(s[e - 1..e])
      else None
    else None
  }

  /** `input.match(...)`: the leftmost match at or after i. */
  function UrlFrom(s: string, i: nat): (r: Option<string>)
    requires i <= |s|
    ensures r.Some? ==> |r.value| > 0 && forall k :: 0 <= k < |r.value| ==> !IsUrlQuote(r.value[k])
    decreases |s| - i
  {
    if i == |s| then None
    else match UrlAt(s, i)
      case Some(g) => Some(g)
      case None => UrlFrom(s, i + 1)
  }

  /** The group of `/post_data:\s*({[\s\S]*?})/` when a match starts at i:
      from the `{` to the first `}` after it. */
  function PostDataAt(s: string, i: nat): (r: Option<string>)
    requires i <= |s|
    ensures r.Some? ==> |r.value| >= 2 && r.value[0] == '{' && r.value[|r.value| - 1] == '}'
    ensures r.Some? ==> forall k :: 0 <= k < |r.value| - 1 ==> r.value[k] != '}'
  {
    if StartsWith(s[i..], "post_data:") then
      var j := NextNonSpace(s, i + 10);
      if j < |s| && s[j] == '{' then
        var c := IndexFrom(s, '}', j + 1);
        if c < |s| then Some(s[j..c + 1]) else None
      else None
    else None
  }

  function PostDataFrom(s: string, i: nat): (r: Option<string>)
    requires i <= |s|
    ensures r.Some? ==> |r.value| >= 2 && r.value[0] == '{' && r.value[|r.value| - 1] == '}'
    ensures r.Some? ==> forall k :: 0 <= k < |r.value| - 1 ==> r.value[k] != '}'
    decreases |s| - i
  {
    if i == |s| then None
    else match PostDataAt(s, i)
      case Some(g) => Some(g)
      case None => PostDataFrom(s, i + 1)
  }

  /** Appending a query string: after `&` when the URL already has a `?`,
      otherwise after `?`; an empty query string leaves the URL alone. */
  function JoinUrl(url: string, queryString: string): string {
    if |queryString| == 0 then url
    else url + [if '?' in url then '&' else '?'] + queryString
  }

  /** The messages the conversion reports in place of a URL. */
  const EmptyInputMessage := "请输入内容"
  const NoUrlMessage := "未找到url"
  const PostDataPrefix := "解析post_data失败: "

  /** The conversion: the URL with the post data's query string joined on,
      or the message reported instead. */
  function ConvertRequestToUrl(d: Decoder, enc: Encoder, input0: string): Result<string> {
    var input := Trim(input0);
    if |input| == 0 then Err(EmptyInputMessage)
    else match UrlFrom(input, 0)
      case None => Err(NoUrlMessage)
      case Some(group) =>
        var url := Trim(group);
        match PostDataFrom(input, 0)
        case None => Ok(JoinUrl(url, ""))
        case Some(postDataStr) =>
          match ParseEnhancedJson(d, postDataStr)
          case Err(m) => Err(PostDataPrefix + m)
          case Ok(postData) =>
            if Throws(postData) then Err(PostDataPrefix + NotAFunctionMessage)
            else Ok(JoinUrl(url, QueryString(enc, postData, "")))
  }

  /** The conversion fails exactly on an empty input, on a missing url, on
      post data the parser rejects, or on post data whose walk meets an own
      `hasOwnProperty` member, each with its own message. */
  lemma ConversionFailures(d: Decoder, enc: Encoder, input: string)
    ensures var t := Trim(input);
      ConvertRequestToUrl(d, enc, input).Err? <==>
        |t| == 0 || UrlFrom(t, 0).None? ||
        (PostDataFrom(t, 0).Some? && ParseEnhancedJson(d, PostDataFrom(t, 0).value).Err?) ||
        (PostDataFrom(t, 0).Some? && ParseEnhancedJson(d, PostDataFrom(t, 0).value).Ok? &&
         Throws(ParseEnhancedJson(d, PostDataFrom(t, 0).value).value))
    ensures |Trim(input)| == 0 ==> ConvertRequestToUrl(d, enc, input) == Err(EmptyInputMessage)
    ensures var t := Trim(input);
      |t| > 0 && UrlFrom(t, 0).None? ==> ConvertRequestToUrl(d, enc, input) == Err(NoUrlMessage)
    ensures var t := Trim(input);
      |t| > 0 && UrlFrom(t, 0).Some? && PostDataFrom(t, 0).Some? &&
      ParseEnhancedJson(d, PostDataFrom(t, 0).value).Err? ==>
        ConvertRequestToUrl(d, enc, input) == Err(PostDataPrefix + ParseEnhancedJson(d, PostDataFrom(t, 0).value).msg)
    ensures var t := Trim(input);
      |t| > 0 && UrlFrom(t, 0).Some? && PostDataFrom(t, 0).Some? &&
      ParseEnhancedJson(d, PostDataFrom(t, 0).value).Ok? && Throws(ParseEnhancedJson(d, PostDataFrom(t, 0).value).value) ==>
        ConvertRequestToUrl(d, enc, input) == Err(PostDataPrefix + NotAFunctionMessage)
  {
  }

  /** The URL join keeps the URL as a prefix, puts exactly one separator
      after it, and the query string after that; the separator is `&` exactly
      when the URL already had a `?`. */
  lemma JoinUrlSplits(url: string, queryString: string)
    requires |queryString| > 0
    ensures var r := JoinUrl(url, queryString);
      |r| == |url| + 1 + |queryString| && r[..|url|] == url && r[|url| + 1..] == queryString &&
      (r[|url|] == '&' <==> '?' in url) && (r[|url|] == '?' <==> '?' !in url)
    ensures '?' in JoinUrl(url, queryString)
  {
    var r := JoinUrl(url, queryString);
    assert r[|url|] in r;
  }

  /** Without post data, or with post data that flattens to nothing, the
      result is the trimmed URL itself. */
  lemma NoQueryKeepsUrl(url: string)
    ensures JoinUrl(url, "") == url
  {
  }

  /** The URL found has no quote characters and no whitespace at either end. */
  lemma UrlIsClean(input: string)
    requires UrlFrom(Trim(input), 0).Some?
    ensures var u := Trim(UrlFrom(Trim(input), 0).value);
      (forall k :: 0 <= k < |u| ==> !IsUrlQuote(u[k])) && (|u| == 0 || (!IsSpace(u[0]) && !IsSpace(u[|u| - 1])))
  {
    var g := UrlFrom(Trim(input), 0).value;
    TrimKeepsCharacters(g);
  }

  /** As written, the lazy `[\s\S]*?` stops at the first `}`: post data with a
      nested object is cut inside it, so only one `}` is ever kept. */
  lemma PostDataStopsAtFirstBrace(s: string)
    requires PostDataFrom(s, 0).Some?
    ensures var p := PostDataFrom(s, 0).value;
      p[0] == '{' && p[|p| - 1] == '}' && '}' !in p[..|p| - 1]
  {
    var p := PostDataFrom(s, 0).value;
    var q := p[..|p| - 1];
    assert forall k :: 0 <= k < |q| ==> q[k] != '}';
  }

  /** End to end: when the post data parses to something with fields that
      the walk goes through without a throw, and the encoder never yields
      `&`, the result is the URL, one separator, and the rendered fields
      joined by `&`. */
  lemma ConvertedUrlCarriesFields(d: Decoder, enc: Encoder, input: string)
    requires forall x :: '&' !in enc(x)
    requires |Trim(input)| > 0 && UrlFrom(Trim(input), 0).Some? && PostDataFrom(Trim(input), 0).Some?
    requires ParseEnhancedJson(d, PostDataFrom(Trim(input), 0).value).Ok?
    requires !Throws(ParseEnhancedJson(d, PostDataFrom(Trim(input), 0).value).value)
    requires |QueryString(enc, ParseEnhancedJson(d, PostDataFrom(Trim(input), 0).value).value, "")| > 0
    ensures ConvertRequestToUrl(d, enc, input).Ok?
    ensures var url := Trim(UrlFrom(Trim(input), 0).value);
      var r := ConvertRequestToUrl(d, enc, input).value;
      var fields := Fields(ParseEnhancedJson(d, PostDataFrom(Trim(input), 0).value).value, "");
      |url| < |r| && r[..|url|] == url && Split(r[|url| + 1..], '&') == RenderAll(enc, fields)
  {
    var t := Trim(input);
    var url := Trim(UrlFrom(t, 0).value);
    var p := PostDataFrom(t, 0).value;
    var v := ParseEnhancedJson(d, p).value;
    assert ConvertRequestToUrl(d, enc, input) == Ok(JoinUrl(url, QueryString(enc, v, "")));
    UrlCarriesFields(enc, url, v);
  }

  lemma UrlCarriesFields(enc: Encoder, url: string, v: JValue)
    requires forall x :: '&' !in enc(x)
    requires |QueryString(enc, v, "")| > 0
    ensures var r := JoinUrl(url, QueryString(enc, v, ""));
      |url| < |r| && r[..|url|] == url && Split(r[|url| + 1..], '&') == RenderAll(enc, Fields(v, ""))
  {
    var q := QueryString(enc, v, "");
    QueryStringIsFields(enc, v, "");
    QueryStringSplitsIntoFields(enc, v, "");
    JoinUrlSplits(url, q);
  }
}
