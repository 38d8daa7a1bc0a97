/** `convertJsObjectToJson`, the object-literal normaliser, in its two forms:
    the HTML-aware one of json-utils.js (copied verbatim into tab.js), which
    reshapes the truncated text equals-style or colon-style, and the older
    HTML-unaware one of popup.js, which runs the two quoting scanners. */
module Normalizer {
  import opened Text
  import opened Json
  import opened Prepass
  import opened Scanner
  import opened EqualsStyle
  import opened ColonStyle
  import opened Quoting

  /** The message thrown when no `{` or `[` is left after the pre-passes. */
  const NoOpenerMessage := "未找到有效的JSON对象或数组起始符"

  /** The text after `trim` and the two pre-passes. */
  function Prepared(s: string): string {
    StripStatementSuffix(StripDeclaration(Trim(s)))
  }

  /** No `{` or `[` occurs in t. */
  predicate NoOpener(t: string) {
    forall k :: 0 <= k < |t| ==> !IsOpener(t[k])
  }

  /** The prepared text t cut to start at its first opener, or the error. */
  function Located(t: string): (r: Result<string>)
    ensures r.Err? <==> NoOpener(t)
    ensures r.Err? ==> r.msg == NoOpenerMessage
    ensures r.Ok? ==> 0 < |r.value| <= |t| && IsOpener(r.value[0]) && r.value == t[|t| - |r.value|..]
    ensures r.Ok? ==> NoOpener(t[..|t| - |r.value|])
  {
    match FromFirstOpener(t)
    case None => Err(NoOpenerMessage)
    case Some(u) => Ok(u)
  }

  /** The branch on `processedStr.includes('=')`. */
  function Reshaped(u: string): string {
    if '=' in u then EqualsReshaped(u) else ColonReshaped(u)
  }

  /** The json-utils.js normaliser. */
  function Normalized(s: string): Result<string> {
    match Located(Prepared(s))
    case Err(m) => Err(m)
    case Ok(t) => Ok(Reshaped(Truncated(t, true)))
  }

  /** The popup.js normaliser. */
  function PopupNormalized(s: string): Result<string> {
    match Located(Prepared(s))
    case Err(m) => Err(m)
    case Ok(t) => Ok(QuotedNames(SingleQuoted(Truncated(t, false))))
  }

  /** `JsonUtils.convertJsObjectToJson`. */
  method ConvertJsObjectToJson(jsString: string) returns (r: Result<string>)
    ensures r == Normalized(jsString)
  {
    var str := Prepared(jsString);
    var start := FromFirstOpener(str);
    if start.None? {
      return Err(NoOpenerMessage);
    }
    str := start.value;
    str := Truncate(str, true);
    var processedStr := str;
    if '=' in processedStr {
      var content := StripOuterBraces(processedStr);
      var pairs := SplitPairs(content);
      processedStr := EmitPairs(pairs);
    } else {
      processedStr := ColonReshaped(processedStr);
    }
    r := Ok(processedStr);
  }

  /** `convertJsObjectToJson` of popup.js. */
  method PopupConvertJsObjectToJson(jsString: string) returns (r: Result<string>)
    ensures r == PopupNormalized(jsString)
  {
    var str := Prepared(jsString);
    var start := FromFirstOpener(str);
    if start.None? {
      return Err(NoOpenerMessage);
    }
    str := start.value;
    str := Truncate(str, false);
    str := ConvertSingleQuotes(str);
    str := QuotePropertyNames(str);
    r := Ok(str);
  }

  /** Both normalisers throw for the same inputs, with the same message, and
      exactly when no opener is left after the pre-passes. */
  lemma FailsOnlyWithoutOpener(s: string)
    ensures Normalized(s).Err? <==> NoOpener(Prepared(s))
    ensures PopupNormalized(s).Err? <==> Normalized(s).Err?
    ensures Normalized(s).Err? ==> Normalized(s).msg == NoOpenerMessage
  {
    var t := Prepared(s);
    match Located(t)
    case Err(m) =>
      assert Normalized(s) == Err(m) && PopupNormalized(s) == Err(m);
    case Ok(u) =>
      assert Normalized(s).Ok? && PopupNormalized(s).Ok?;
  }

  /** The equals-style reshaper always yields a braced text, whatever the
      input was. */
  lemma EqualsOutputIsBraced(u: string)
    ensures |EqualsReshaped(u)| >= 2
    ensures EqualsReshaped(u)[0] == '{' && EqualsReshaped(u)[|EqualsReshaped(u)| - 1] == '}'
  {
  }

  /** The branch is chosen on any `=` in the truncated text, including one
      inside a string or an array: then the result is a braced text. When
      there is no `=`, the colon rewrites run. */
  lemma BranchOnAnyEquals(s: string)
    requires Located(Prepared(s)).Ok?
    ensures var u := Truncated(Located(Prepared(s)).value, true);
      ('=' in u ==> Normalized(s) == Ok(EqualsReshaped(u)) && Normalized(s).value[0] == '{') &&
      ('=' !in u ==> Normalized(s) == Ok(ColonReshaped(u)))
  {
    EqualsOutputIsBraced(Truncated(Located(Prepared(s)).value, true));
  }

  /** An array holding the string "=" goes through the equals branch and
      comes out as an object. */
  lemma ArrayWithEqualsBecomesObject()
    ensures Normalized("[\"=\"]") == Ok(EqualsReshaped("[\"=\"]"))
    ensures var r := EqualsReshaped("[\"=\"]"); |r| >= 2 && r[0] == '{' && r[|r| - 1] == '}'
  {
    var s := "[\"=\"]";
    PrepassesLeaveBracketed(s);
    ArrayExampleUntruncated();
    assert s[2] == '=';
    UntouchedWithEquals(s);
    EqualsOutputIsBraced(s);
  }

  /** Text that the pre-passes and the cut leave alone goes to the equals
      branch as it is. */
  lemma UntouchedWithEquals(s: string)
    requires Prepared(s) == s && |s| > 0 && IsOpener(s[0])
    requires Truncated(s, true) == s && '=' in s
    ensures Normalized(s) == Ok(EqualsReshaped(s))
  {
    assert FirstOpener(s, 0) == Some(0);
    assert s[0..] == s;
  }

  /** Text that starts with `{` or `[`, ends in a non-space and holds no `;`
      is left alone by `trim` and both pre-passes. */
  lemma PrepassesLeaveBracketed(s: string)
    requires |s| > 0 && IsOpener(s[0]) && !IsSpace(s[|s| - 1])
    requires forall k :: 0 <= k < |s| ==> s[k] != ';'
    ensures Prepared(s) == s
  {
    TrimOfTrimmed(s);
    OpenerStartsNoKeyword(s);
    assert SuffixFrom(s, 0).None?;
  }

  lemma ArrayExampleUntruncated()
    ensures Truncated("[\"=\"]", true) == "[\"=\"]"
  {
    var s := "[\"=\"]";
    assert ScanAt(s, true, 1) == ScanState(0, 1, false, "", false, 0);
    assert ScanAt(s, true, 2) == ScanState(0, 1, true, "\"", false, 0);
    assert ScanAt(s, true, 3) == ScanState(0, 1, true, "\"", false, 0);
    assert ScanAt(s, true, 4) == ScanState(0, 1, false, "", false, 0);
    assert ScanAt(s, true, 5) == ScanState(0, 0, false, "", false, 0);
    assert EndIndex(s, true) == 4;
  }
}
