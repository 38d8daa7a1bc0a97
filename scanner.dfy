/** The balance scan of `convertJsObjectToJson`: one left-to-right pass that
    tracks brace and bracket depth, a quoted string and (in the json-utils.js
    and tab.js copies) HTML tags, and records the last index at which the text
    is balanced. The popup.js copy is the same loop without the tag handling;
    `htmlAware` selects the variant. */
module Scanner {
  import opened Text
  import opened Tags

  /** The loop's variables, `endIndex` apart. `currentQuote` is `''` or the
      quote character that opened the current string. */
  datatype ScanState = ScanState(
    braceCount: int,
    bracketCount: int,
    inString: bool,
    currentQuote: string,
    inHtmlTag: bool,
    htmlTagLevel: int)

  const Initial := ScanState(0, 0, false, "", false, 0)

  /** One iteration of the loop on character c; `escaped` says the character
      before it is a backslash. Tags are handled first (only outside a string),
      then quotes (only outside a tag), then the counters (only outside both). */
  function Step(st: ScanState, c: char, escaped: bool, htmlAware: bool): ScanState {
    var t :=
      if htmlAware && !st.inString then
        var g := TagStep(TagState(st.inHtmlTag, st.htmlTagLevel), c);
        st.(inHtmlTag := g.inTag, htmlTagLevel := g.level)
      else st;
    if t.inHtmlTag then t
    else
      var u :=
        if IsQuote(c) && !escaped then
          if !t.inString then t.(inString := true, currentQuote := [c])
          else if [c] == t.currentQuote then t.(inString := false, currentQuote := "")
          else t
        else t;
      if u.inString then u
      else u.(braceCount := u.braceCount + (if c == '{' then 1 else if c == '}' then -1 else 0),
              bracketCount := u.bracketCount + (if c == '[' then 1 else if c == ']' then -1 else 0))
  }

  /** The state in which the loop records `endIndex := i`. */
  predicate Balanced(st: ScanState) {
    !st.inHtmlTag && !st.inString && st.braceCount == 0 && st.bracketCount == 0
  }

  /** What the scanner's flags always satisfy: never in a string and a tag at
      once, a quote character exactly while in a string, and no tag at all in
      the HTML-unaware variant. */
  predicate Consistent(st: ScanState, htmlAware: bool) {
    && !(st.inString && st.inHtmlTag)
    && (st.currentQuote == "" <==> !st.inString)
    && (st.inString ==> st.currentQuote == "\"" || st.currentQuote == "'")
    && (!htmlAware ==> !st.inHtmlTag && st.htmlTagLevel == 0)
  }

  /** The state after the first n characters of s. */
  function ScanAt(s: string, htmlAware: bool, n: nat): (st: ScanState)
    requires n <= |s|
    ensures Consistent(st, htmlAware)
  {
    if n == 0 then Initial
    else Step(ScanAt(s, htmlAware, n - 1), s[n - 1], Escaped(s, n - 1), htmlAware)
  }

  /** The last index below n after which the scan is balanced, or -1. */
  function LastBalance(s: string, htmlAware: bool, n: nat): (e: int)
    requires n <= |s|
    ensures -1 <= e < n
    ensures e >= 0 ==> Balanced(ScanAt(s, htmlAware, e + 1))
    ensures forall j :: e + 1 < j <= n ==> !Balanced(ScanAt(s, htmlAware, j))
  {
    if n == 0 then -1
    else if Balanced(ScanAt(s, htmlAware, n)) then n - 1
    else LastBalance(s, htmlAware, n - 1)
  }

  /** The loop's final `endIndex`. */
  function EndIndex(s: string, htmlAware: bool): int {
    LastBalance(s, htmlAware, |s|)
  }

  /** The text kept after the scan: everything up to and including the last
      balance point, or all of s when there is none. */
  function Truncated(s: string, htmlAware: bool): (r: string)
    ensures EndIndex(s, htmlAware) >= 0 ==> r == s[..EndIndex(s, htmlAware) + 1]
    ensures EndIndex(s, htmlAware) == -1 ==> r == s
  {
    var e := EndIndex(s, htmlAware);
    if e != -1 && e < |s| - 1 then s[..e + 1] else s
  }

  /** The scanning loop and the cut that follows it. */
  method BalanceScan(str: string, htmlAware: bool) returns (endIndex: int)
    ensures endIndex == EndIndex(str, htmlAware)
  {
    var braceCount, bracketCount := 0, 0;
    endIndex := -1;
    var inString, currentQuote := false, "";
    var inHtmlTag, htmlTagLevel := false, 0;
    for i := 0 to |str|
      invariant ScanState(braceCount, bracketCount, inString, currentQuote, inHtmlTag, htmlTagLevel)
                == ScanAt(str, htmlAware, i)
      invariant endIndex == LastBalance(str, htmlAware, i)
    {
      var ch := str[i];
      var escaped := i > 0 && str[i - 1] == '\\';
      ghost var next := Step(ScanAt(str, htmlAware, i), ch, escaped, htmlAware);
      assert ScanAt(str, htmlAware, i + 1) == next;
      if htmlAware && ch == '<' && !inString {
        inHtmlTag := true;
        htmlTagLevel := htmlTagLevel + 1;
      } else if htmlAware && ch == '>' && !inString {
        htmlTagLevel := htmlTagLevel - 1;
        if htmlTagLevel == 0 {
          inHtmlTag := false;
        }
      }
      if !inHtmlTag {
        if (ch == '"' || ch == '\'') && !escaped {
          if !inString {
            inString := true;
            currentQuote := [ch];
          } else if [ch] == currentQuote {
            inString := false;
            currentQuote := "";
          }
        }
        if !inString {
          if ch == '{' {
            braceCount := braceCount + 1;
          } else if ch == '}' {
            braceCount := braceCount - 1;
          } else if ch == '[' {
            bracketCount := bracketCount + 1;
          } else if ch == ']' {
            bracketCount := bracketCount - 1;
          }
          if braceCount == 0 && bracketCount == 0 {
            endIndex := i;
          }
        }
      }
      assert ScanState(braceCount, bracketCount, inString, currentQuote, inHtmlTag, htmlTagLevel) == next;
    }
  }

  /** The cut `if (endIndex !== -1 && endIndex < str.length - 1)`. */
  method Truncate(str: string, htmlAware: bool) returns (r: string)
    ensures r == Truncated(str, htmlAware)
  {
    var endIndex := BalanceScan(str, htmlAware);
    r := str;
    if endIndex != -1 && endIndex < |str| - 1 {
      r := str[..endIndex + 1];
    }
  }

  /** A string is closed only by an unescaped copy of the quote that opened
      it, and never from inside a tag. */
  lemma QuoteClosesOnlyOnOpener(s: string, htmlAware: bool, n: nat)
    requires n < |s|
    requires ScanAt(s, htmlAware, n).inString && !ScanAt(s, htmlAware, n + 1).inString
    ensures [s[n]] == ScanAt(s, htmlAware, n).currentQuote
    ensures !Escaped(s, n)
  {
  }

  /** Inside a string, `<` and `>` leave the tag state alone; inside a tag,
      quotes leave the string state alone and nothing is counted. */
  lemma StringAndTagExcludeEachOther(s: string, htmlAware: bool, n: nat)
    requires n < |s|
    ensures ScanAt(s, htmlAware, n).inString ==>
      ScanAt(s, htmlAware, n + 1).inHtmlTag == ScanAt(s, htmlAware, n).inHtmlTag &&
      ScanAt(s, htmlAware, n + 1).htmlTagLevel == ScanAt(s, htmlAware, n).htmlTagLevel
    ensures ScanAt(s, htmlAware, n + 1).inHtmlTag ==>
      ScanAt(s, htmlAware, n + 1).inString == ScanAt(s, htmlAware, n).inString &&
      ScanAt(s, htmlAware, n + 1).braceCount == ScanAt(s, htmlAware, n).braceCount &&
      ScanAt(s, htmlAware, n + 1).bracketCount == ScanAt(s, htmlAware, n).bracketCount
  {
  }

  /** A character that is no quote, tag delimiter, brace or bracket. */
  predicate Plain(c: char) {
    !IsQuote(c) && c != '<' && c != '>' && c != '{' && c != '}' && c != '[' && c != ']'
  }

  /** As written, `endIndex` is recorded at every balanced character, not only
      at a closing brace or bracket. So once the text is balanced, a tail
      without quotes, tags, braces or brackets keeps it balanced, and nothing
      is cut: `{"a":1} extra` is kept whole. */
  lemma {:induction false} PlainTailIsKept(s: string, htmlAware: bool, k: nat)
    requires 0 < k <= |s|
    requires Balanced(ScanAt(s, htmlAware, k))
    requires forall j :: k <= j < |s| ==> Plain(s[j])
    ensures EndIndex(s, htmlAware) == |s| - 1
    ensures Truncated(s, htmlAware) == s
  {
    PlainTailStaysBalanced(s, htmlAware, k, |s|);
  }

  lemma {:induction false} PlainTailStaysBalanced(s: string, htmlAware: bool, k: nat, n: nat)
    requires 0 < k <= n <= |s|
    requires Balanced(ScanAt(s, htmlAware, k))
    requires forall j :: k <= j < n ==> Plain(s[j])
    ensures Balanced(ScanAt(s, htmlAware, n))
  {
    if n > k {
      PlainTailStaysBalanced(s, htmlAware, k, n - 1);
    }
  }

  /** On text without `<` or `>` the HTML-unaware scan of popup.js and the
      HTML-aware scan of json-utils.js go through the same states, so they cut
      the text at the same place. */
  lemma {:induction false} VariantsAgreeWithoutTags(s: string, n: nat)
    requires n <= |s|
    requires forall j :: 0 <= j < |s| ==> s[j] != '<' && s[j] != '>'
    ensures ScanAt(s, false, n) == ScanAt(s, true, n)
    ensures LastBalance(s, false, n) == LastBalance(s, true, n)
  {
    if n > 0 {
      VariantsAgreeWithoutTags(s, n - 1);
    }
  }

  lemma TruncationAgreesWithoutTags(s: string)
    requires forall j :: 0 <= j < |s| ==> s[j] != '<' && s[j] != '>'
    ensures Truncated(s, false) == Truncated(s, true)
  {
    VariantsAgreeWithoutTags(s, |s|);
  }

  /** As written, a `>` outside a string drives `htmlTagLevel` below zero. */
  lemma TagLevelGoesNegative()
    ensures ScanAt(">", true, 1).htmlTagLevel == -1
    ensures !ScanAt(">", true, 1).inHtmlTag
  {
  }
}
