/** `parseEnhancedJSON`: strict decoding, then decoding of the normalised
    text, then (json-utils.js and tab.js) one repair of a trailing comma,
    with the errors of all stages gathered into one message. The strict
    decoder is the parameter `d`. */
module Pipeline {
  import opened Text
  import opened Json
  import opened Normalizer

  /** The message thrown when the first two stages fail. */
  function TwoPart(e1: string, e2: string): string {
    "JSON解析失败:\n标准JSON错误: " + e1 + "\nJS对象转换错误: " + e2
  }

  /** The message thrown when all three stages fail. */
  function ThreePart(e1: string, e2: string, e3: string): string {
    TwoPart(e1, e2) + "\n尝试修复错误: " + e3
  }

  /** The three-part message extends the two-part one. */
  lemma ThreePartExtendsTwoPart(e1: string, e2: string, e3: string)
    ensures |TwoPart(e1, e2)| < |ThreePart(e1, e2, e3)|
    ensures ThreePart(e1, e2, e3)[..|TwoPart(e1, e2)|] == TwoPart(e1, e2)
  {
  }

  /** `JSON.parse(convertJsObjectToJson(s))`: an error of either call is the
      outcome. */
  function NormalizeThenDecode(d: Decoder, s: string): Result<JValue> {
    match Normalized(s)
    case Err(m) => Err(m)
    case Ok(p) => d(p)
  }

  /** The same with the popup.js normaliser. */
  function PopupNormalizeThenDecode(d: Decoder, s: string): Result<JValue> {
    match PopupNormalized(s)
    case Err(m) => Err(m)
    case Ok(p) => d(p)
  }

  /** `Math.max(t.lastIndexOf('}'), t.lastIndexOf(']'))` */
  function LastCloser(t: string): (r: int)
    ensures -1 <= r < |t|
    ensures r >= 0 ==> t[r] == '}' || t[r] == ']'
    ensures forall k :: r < k < |t| ==> t[k] != '}' && t[k] != ']'
  {
    var b := LastIndexOf(t, '}');
    var k := LastIndexOf(t, ']');
    if b >= k then b else k
  }

  /** `u.replace(/,\s*$/, '')`. A match of `,\s*$` is a comma followed by
      nothing but whitespace, so there is at most one: the last character
      left by trimming the end, when that is a comma. */
  function RemoveFinalComma(u: string): string {
    var e := |TrimEnd(u)|;
    if e > 0 && u[e - 1] == ',' then u[..e - 1] else u
  }

  /** The text the third stage hands to the normaliser, when the trimmed text
      ends in `,` and only whitespace stands between that comma and the last
      `}` or `]`; None when the stage does not apply. */
  function RepairTarget(s: string): Option<string> {
    RepairTrimmed(Trim(s))
  }

  /** The repair on the trimmed text t. */
  function RepairTrimmed(t: string): Option<string> {
    if Repairable(t) then Some(RepairedAt(t, LastCloser(t))) else None
  }

  /** `t.substring(0, lastBrace + 1) + afterLastBrace.replace(/,\s*$/, '')` */
  function RepairedAt(t: string, lb: int): string
    requires -1 <= lb < |t|
  {
    t[..lb + 1] + RemoveFinalComma(t[lb + 1..])
  }

  /** The trimmed text ends in `,`, has a `}` or `]`, and after the last of
      these trims to just `,`. */
  predicate Repairable(t: string) {
    |t| > 0 && t[|t| - 1] == ',' && LastCloser(t) > -1 && Trim(t[LastCloser(t) + 1..]) == ","
  }

  /** `JsonUtils.parseEnhancedJSON` (also `parseEnhancedJSON` of tab.js). */
  function ParseEnhancedJson(d: Decoder, s: string): Result<JValue> {
    match d(s)
    case Ok(v) => Ok(v)
    case Err(e1) =>
      match NormalizeThenDecode(d, s)
      case Ok(v) => Ok(v)
      case Err(e2) =>
        match RepairTarget(s)
        case None => Err(ThreePart(e1, e2, TwoPart(e1, e2)))
        case Some(t) =>
          match NormalizeThenDecode(d, t)
          case Ok(v) => Ok(v)
          case Err(e3) => Err(ThreePart(e1, e2, e3))
  }

  /** `parseEnhancedJSON` of popup.js: two stages and a two-part message. */
  function PopupParseEnhancedJson(d: Decoder, s: string): Result<JValue> {
    match d(s)
    case Ok(v) => Ok(v)
    case Err(e1) =>
      match PopupNormalizeThenDecode(d, s)
      case Ok(v) => Ok(v)
      case Err(e2) => Err(TwoPart(e1, e2))
  }

  /** Strict JSON is decoded as it is, by both parsers. */
  lemma StrictJsonFirst(d: Decoder, s: string)
    requires d(s).Ok?
    ensures ParseEnhancedJson(d, s) == d(s)
    ensures PopupParseEnhancedJson(d, s) == d(s)
  {
  }

  /** The normaliser is only consulted when strict decoding fails, and its
      decoded output is then the result. */
  lemma NormaliserSecond(d: Decoder, s: string)
    requires d(s).Err? && NormalizeThenDecode(d, s).Ok?
    ensures ParseEnhancedJson(d, s) == NormalizeThenDecode(d, s)
  {
  }

  lemma PopupNormaliserSecond(d: Decoder, s: string)
    requires d(s).Err?
    ensures PopupParseEnhancedJson(d, s).Ok? <==> PopupNormalizeThenDecode(d, s).Ok?
    ensures PopupNormalizeThenDecode(d, s).Ok? ==> PopupParseEnhancedJson(d, s) == PopupNormalizeThenDecode(d, s)
    ensures PopupParseEnhancedJson(d, s).Err? ==>
      PopupParseEnhancedJson(d, s).msg == TwoPart(d(s).msg, PopupNormalizeThenDecode(d, s).msg)
  {
  }

  /** The repair is tried only after both earlier stages fail. */
  lemma RepairThird(d: Decoder, s: string)
    requires d(s).Err? && NormalizeThenDecode(d, s).Err? && RepairTarget(s).Some?
    ensures ParseEnhancedJson(d, s).Ok? <==> NormalizeThenDecode(d, RepairTarget(s).value).Ok?
    ensures ParseEnhancedJson(d, s).Ok? ==> ParseEnhancedJson(d, s) == NormalizeThenDecode(d, RepairTarget(s).value)
  {
  }

  /** The parser succeeds exactly when one of its stages does, and then with
      that stage's value. */
  lemma SucceedsIffAStageDoes(d: Decoder, s: string)
    ensures ParseEnhancedJson(d, s).Ok? <==>
      d(s).Ok? || NormalizeThenDecode(d, s).Ok? ||
      (RepairTarget(s).Some? && NormalizeThenDecode(d, RepairTarget(s).value).Ok?)
    ensures ParseEnhancedJson(d, s).Ok? ==>
      ParseEnhancedJson(d, s) == d(s) || ParseEnhancedJson(d, s) == NormalizeThenDecode(d, s) ||
      (RepairTarget(s).Some? && ParseEnhancedJson(d, s) == NormalizeThenDecode(d, RepairTarget(s).value))
  {
  }

  /** When every stage fails, the message names the strict error, the
      normaliser's error and the repair's: the repair's own error, or the
      two-part message when the repair does not apply. */
  lemma ErrorGathersAllStages(d: Decoder, s: string)
    requires ParseEnhancedJson(d, s).Err?
    ensures d(s).Err? && NormalizeThenDecode(d, s).Err?
    ensures var e1 := d(s).msg; var e2 := NormalizeThenDecode(d, s).msg;
      ParseEnhancedJson(d, s).msg == ThreePart(e1, e2,
        if RepairTarget(s).Some? then NormalizeThenDecode(d, RepairTarget(s).value).msg else TwoPart(e1, e2))
  {
  }

  /** The repair removes exactly the final comma of the trimmed text, and
      what is left trims to a text that ends in `}` or `]`. */
  lemma RepairDropsFinalComma(s: string)
    requires RepairTarget(s).Some?
    ensures var t := Trim(s);
      |t| > 0 && t[|t| - 1] == ',' && RepairTarget(s).value == t[..|t| - 1]
    ensures var r := Trim(RepairTarget(s).value);
      |r| > 0 && (r[|r| - 1] == '}' || r[|r| - 1] == ']')
  {
    var t := Trim(s);
    RepairTrimmedDropsFinalComma(t);
  }

  /** A comma right after a text that starts with a non-space and ends in
      `}` or `]` is removed, and nothing else is. */
  lemma CloserThenCommaRepaired(x: string)
    requires |x| > 0 && !IsSpace(x[0]) && (x[|x| - 1] == '}' || x[|x| - 1] == ']')
    ensures RepairTarget(x + ",") == Some(x)
  {
    var t := x + ",";
    assert t[0] == x[0] && t[|t| - 1] == ',';
    TrimOfTrimmed(t);
    assert t[|x| - 1] == x[|x| - 1];
    var lb := LastCloser(t);
    assert lb == |x| - 1;
    assert t[lb + 1..] == ",";
    TrimOfTrimmed(",");
    assert Repairable(t);
    RepairTrimmedDropsFinalComma(t);
    assert t[..|t| - 1] == x;
  }

  lemma RepairTrimmedDropsFinalComma(t: string)
    requires Repairable(t) && (|t| == 0 || !IsSpace(t[0]))
    ensures |t| > 0 && t[|t| - 1] == ',' && RepairTrimmed(t) == Some(t[..|t| - 1])
    ensures var r := Trim(t[..|t| - 1]);
      |r| > 0 && (r[|r| - 1] == '}' || r[|r| - 1] == ']')
  {
    RepairTrimmedValue(t);
    RepairedTrimsToCloser(t);
  }

  lemma RepairedTrimsToCloser(t: string)
    requires Repairable(t) && !IsSpace(t[0])
    ensures var r := Trim(t[..|t| - 1]);
      |r| > 0 && (r[|r| - 1] == '}' || r[|r| - 1] == ']')
  {
    CloserPrecedesComma(t);
    RepairLeavesCloser(t, LastCloser(t));
  }

  lemma RepairTrimmedValue(t: string)
    requires Repairable(t)
    ensures RepairTrimmed(t) == Some(t[..|t| - 1])
  {
    CloserPrecedesComma(t);
    RepairRemovesComma(t, LastCloser(t));
  }

  /** The final comma is not a closer, so the last closer comes before it. */
  lemma CloserPrecedesComma(t: string)
    requires Repairable(t)
    ensures LastCloser(t) < |t| - 1
  {
  }

  /** The repair on an already trimmed text t whose last `}` or `]` is at lb. */
  lemma RepairRemovesComma(t: string, lb: nat)
    requires lb < |t| - 1 && t[|t| - 1] == ',' && Trim(t[lb + 1..]) == ","
    ensures RepairedAt(t, lb) == t[..|t| - 1]
  {
    var tail := t[lb + 1..];
    assert tail[|tail| - 1] == ',';
    CommaTail(tail);
    SliceOfSlice(t, lb + 1, |t| - 1);
    PrefixSplit(t, lb + 1, |t| - 1);
  }

  lemma RepairLeavesCloser(t: string, lb: nat)
    requires lb < |t| - 1 && !IsSpace(t[0]) && (t[lb] == '}' || t[lb] == ']')
    requires t[|t| - 1] == ',' && Trim(t[lb + 1..]) == ","
    ensures var r := Trim(t[..|t| - 1]);
      |r| > 0 && (r[|r| - 1] == '}' || r[|r| - 1] == ']')
  {
    var p := t[..|t| - 1];
    SpacesBeforeComma(t, lb);
    assert forall k :: lb < k < |p| ==> IsSpace(p[k]);
    assert p[0] == t[0] && p[lb] == t[lb];
    TrimToCloser(p, lb);
  }

  /** Between the last closer and the final comma there is only whitespace. */
  lemma SpacesBeforeComma(t: string, lb: nat)
    requires lb < |t| - 1 && t[|t| - 1] == ',' && Trim(t[lb + 1..]) == ","
    ensures forall k :: lb < k < |t| - 1 ==> IsSpace(t[k])
  {
    var tail := t[lb + 1..];
    assert tail[|tail| - 1] == ',';
    CommaTail(tail);
    assert forall k :: lb < k < |t| - 1 ==> t[k] == tail[k - lb - 1];
  }

  /** A tail that ends in `,` and trims to `,` is whitespace and that comma,
      and the regular expression removes just the comma. */
  lemma CommaTail(tail: string)
    requires |tail| > 0 && tail[|tail| - 1] == ',' && Trim(tail) == ","
    ensures RemoveFinalComma(tail) == tail[..|tail| - 1]
    ensures forall k :: 0 <= k < |tail| - 1 ==> IsSpace(tail[k])
  {
    var a := |tail| - |TrimStart(tail)|;
    assert TrimStart(tail) == tail[a..];
    LoneCommaAt(tail, a);
    assert TrimEnd(tail) == tail;
  }

  /** The comma that ends a tail trimming to `,` is where leading
      whitespace ends. */
  lemma LoneCommaAt(tail: string, a: nat)
    requires |tail| > 0 && tail[|tail| - 1] == ','
    requires a <= |tail| && TrimStart(tail) == tail[a..] && TrimEnd(tail[a..]) == ","
    ensures a == |tail| - 1
  {
    var u := tail[a..];
    assert u[|u| - 1] == ',';
  }

  /** A text that starts with a non-space and whose last non-space is a
      closer at lb trims to the text up to that closer. */
  lemma TrimToCloser(p: string, lb: nat)
    requires lb < |p| && !IsSpace(p[0]) && (p[lb] == '}' || p[lb] == ']')
    requires forall k :: lb < k < |p| ==> IsSpace(p[k])
    ensures Trim(p) == p[..lb + 1]
  {
    assert TrimStart(p) == p;
    var r := TrimEnd(p);
    assert |r| == 0 || r[|r| - 1] == p[|r| - 1];
    assert |r| == lb + 1;
  }
}
