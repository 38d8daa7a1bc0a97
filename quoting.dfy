/** The two character scanners that the popup.js normaliser runs after
    truncation (tab.js carries copies of both): `convertSingleQuotes`, which
    turns every quote that opens or closes a string into `"`, and
    `quotePropertyNames`, which wraps a bare key after `{` or `,` in `"`. */
module Quoting {
  import opened Text

  /** `isValueWithoutQuotes`: no equals-style value is ever left unquoted. */
  function IsValueWithoutQuotes(value: string): (r: bool)
    ensures !r
  {
    false
  }

  // ---------------------------------------------------------------------
  // convertSingleQuotes

  /** The loop's `inString` and `quoteType` (`''` or the opening quote). */
  datatype QuoteState = QuoteState(inString: bool, quoteType: string)

  /** An unescaped quote that opens a string, or closes the one its own kind opened. */
  predicate Toggles(st: QuoteState, c: char, escaped: bool) {
    IsQuote(c) && !escaped && (!st.inString || [c] == st.quoteType)
  }

  function QuoteStep(st: QuoteState, c: char, escaped: bool): QuoteState {
    if Toggles(st, c, escaped) then
      if st.inString then QuoteState(false, "") else QuoteState(true, [c])
    else st
  }

  /** The state after the first n characters. */
  function QuoteAt(s: string, n: nat): (st: QuoteState)
    requires n <= |s|
    ensures st.quoteType == "" <==> !st.inString
    ensures st.inString ==> st.quoteType == "\"" || st.quoteType == "'"
  {
    if n == 0 then QuoteState(false, "")
    else QuoteStep(QuoteAt(s, n - 1), s[n - 1], Escaped(s, n - 1))
  }

  /** Position i holds a quote that opens or closes a string. */
  predicate IsToggle(s: string, i: nat)
    requires i < |s|
  {
    Toggles(QuoteAt(s, i), s[i], Escaped(s, i))
  }

  /** The output of the first n steps: same length as the input, a `"` at
      every opening and closing quote and the input character elsewhere. */
  function SingleQuotedUpTo(s: string, n: nat): (r: string)
    requires n <= |s|
    ensures |r| == n
    ensures forall i :: 0 <= i < n ==> r[i] == if IsToggle(s, i) then '"' else s[i]
  {
    if n == 0 then ""
    else SingleQuotedUpTo(s, n - 1) + [if IsToggle(s, n - 1) then '"' else s[n - 1]]
  }

  function SingleQuoted(s: string): string {
    SingleQuotedUpTo(s, |s|)
  }

  /** The loop of `convertSingleQuotes`. */
  method ConvertSingleQuotes(str: string) returns (result: string)
    ensures result == SingleQuoted(str)
  {
    result := "";
    var inString, quoteType := false, "";
    for i := 0 to |str|
      invariant QuoteState(inString, quoteType) == QuoteAt(str, i)
      invariant result == SingleQuotedUpTo(str, i)
    {
      var ch := str[i];
      var escaped := i > 0 && str[i - 1] == '\\';
      if (ch == '"' || ch == '\'') && !escaped {
        if !inString {
          inString := true;
          quoteType := [ch];
          result := result + "\"";
        } else if [ch] == quoteType {
          inString := false;
          quoteType := "";
          result := result + "\"";
        } else {
          result := result + [ch];
        }
      } else {
        result := result + [ch];
      }
    }
  }

  /** Inside a string, a quote of the other kind is copied unchanged. */
  lemma OtherQuoteKindKept(s: string, i: nat)
    requires i < |s| && IsQuote(s[i])
    requires QuoteAt(s, i).inString && QuoteAt(s, i).quoteType != [s[i]]
    ensures SingleQuoted(s)[i] == s[i]
    ensures QuoteAt(s, i + 1) == QuoteAt(s, i)
  {
  }

  /** Between two toggles the state stays what the first one made it. */
  lemma {:induction false} StateHoldsBetweenToggles(s: string, o: nat, j: nat)
    requires o < j <= |s|
    requires forall m :: o < m < j ==> !IsToggle(s, m)
    ensures QuoteAt(s, j) == QuoteAt(s, o + 1)
  {
    if j > o + 1 {
      StateHoldsBetweenToggles(s, o, j - 1);
      assert !IsToggle(s, j - 1);
    }
  }

  /** A string closes on the same quote character that opened it: the next
      toggle after an opening quote is a copy of it. */
  lemma ClosingMatchesOpening(s: string, o: nat, j: nat)
    requires o < j < |s|
    requires IsToggle(s, o) && !QuoteAt(s, o).inString
    requires forall m :: o < m < j ==> !IsToggle(s, m)
    requires IsToggle(s, j)
    ensures s[j] == s[o]
    ensures QuoteAt(s, j).inString
  {
    StateHoldsBetweenToggles(s, o, j);
  }

  /** Text without single quotes comes back unchanged. */
  lemma NoSingleQuoteNoChange(s: string)
    requires forall i :: 0 <= i < |s| ==> s[i] != '\''
    ensures SingleQuoted(s) == s
  {
  }

  /** `'a"b'` becomes `"a"b"`: the inner `"` is not escaped. */
  lemma SingleQuotedExample()
    ensures SingleQuoted("'a\"'") == "\"a\"\""
  {
    var s := "'a\"'";
    assert IsToggle(s, 0);
    assert QuoteAt(s, 1) == QuoteState(true, "'");
    assert !IsToggle(s, 1) && !IsToggle(s, 2);
    assert QuoteAt(s, 3) == QuoteState(true, "'");
    assert IsToggle(s, 3);
  }

  // ---------------------------------------------------------------------
  // quotePropertyNames

  /** Whether position n lies inside a double-quoted string: the parity of
      the unescaped `"` before it. */
  function InDoubleQuotes(s: string, n: nat): bool
    requires n <= |s|
  {
    if n == 0 then false
    else if s[n - 1] == '"' && !Escaped(s, n - 1) then !InDoubleQuotes(s, n - 1)
    else InDoubleQuotes(s, n - 1)
  }

  predicate IsKeyOpener(c: char) {
    c == '{' || c == ','
  }

  /** An identifier starts after the whitespace following position i. */
  predicate KeyFollows(s: string, i: nat)
    requires i < |s|
  {
    NextNonSpace(s, i + 1) < |s| && IsIdentStart(s[NextNonSpace(s, i + 1)])
  }

  /** ...and after it and more whitespace stands `:`. */
  predicate KeyColonFollows(s: string, i: nat)
    requires i < |s|
  {
    KeyFollows(s, i)
    && var k := IdentEnd(s, NextNonSpace(s, i + 1));
    NextNonSpace(s, k) < |s| && s[NextNonSpace(s, k)] == ':'
  }

  /** What the loop emits from position i on. After `{` or `,` outside a
      string it emits the whitespace that follows; when a key and `:` come
      next it emits `"key"` and goes on after the key, otherwise it goes on
      at the next character, so that whitespace is emitted a second time. */
  function QuotedNamesFrom(s: string, i: nat): string
    requires i <= |s|
    decreases |s| - i
  {
    if i == |s| then ""
    else if s[i] == '"' && !Escaped(s, i) then [s[i]] + QuotedNamesFrom(s, i + 1)
    else if !InDoubleQuotes(s, i) && IsKeyOpener(s[i]) then
      var j := NextNonSpace(s, i + 1);
      if KeyColonFollows(s, i) then
        var k := IdentEnd(s, j);
        [s[i]] + s[i + 1..j] + "\"" + s[j..k] + "\"" + QuotedNamesFrom(s, k)
      else [s[i]] + s[i + 1..j] + QuotedNamesFrom(s, i + 1)
    else [s[i]] + QuotedNamesFrom(s, i + 1)
  }

  function QuotedNames(s: string): string {
    QuotedNamesFrom(s, 0)
  }

  /** The whitespace-copying loop after `{` or `,`. */
  method CopySpaces(str: string, from: nat) returns (ws: string, j: nat)
    requires from <= |str|
    ensures j == NextNonSpace(str, from) && ws == str[from..j]
  {
    ws := "";
    j := from;
    while j < |str| && IsSpace(str[j])
      invariant from <= j <= |str|
      invariant forall m :: from <= m < j ==> IsSpace(str[m])
      invariant ws == str[from..j]
    {
      ws := ws + [str[j]];
      j := j + 1;
    }
    NextNonSpaceIs(str, from, j);
  }

  /** The `propName` loop. */
  method ReadIdent(str: string, from: nat) returns (propName: string, k: nat)
    requires from <= |str|
    ensures k == IdentEnd(str, from) && propName == str[from..k]
  {
    propName := "";
    k := from;
    while k < |str| && IsIdentPart(str[k])
      invariant from <= k <= |str|
      invariant forall m :: from <= m < k ==> IsIdentPart(str[m])
      invariant propName == str[from..k]
    {
      propName := propName + [str[k]];
      k := k + 1;
    }
    IdentEndIs(str, from, k);
  }

  /** Skipping a key leaves the string state as it was: the skipped
      characters hold no `"`. */
  lemma {:induction false} NoQuoteSameParity(s: string, i: nat, k: nat)
    requires i <= k <= |s|
    requires forall m :: i <= m < k ==> s[m] != '"'
    ensures InDoubleQuotes(s, k) == InDoubleQuotes(s, i)
    decreases k - i
  {
    if i < k {
      NoQuoteSameParity(s, i, k - 1);
    }
  }

  /** The loop of `quotePropertyNames`, with its jump `i = k - 1`. */
  method QuotePropertyNames(str: string) returns (result: string)
    ensures result == QuotedNames(str)
  {
    result := "";
    var inString := false;
    var i := 0;
    while i < |str|
      invariant 0 <= i <= |str|
      invariant inString == InDoubleQuotes(str, i)
      invariant result + QuotedNamesFrom(str, i) == QuotedNames(str)
      decreases |str| - i
    {
      var ch := str[i];
      var escaped := i > 0 && str[i - 1] == '\\';
      var emitted, next;
      if ch == '"' && !escaped {
        inString := !inString;
        emitted, next := [ch], i + 1;
      } else if !inString && (ch == '{' || ch == ',') {
        emitted, next := AfterKeyOpener(str, i);
      } else {
        emitted, next := [ch], i + 1;
      }
      assert QuotedNamesFrom(str, i) == emitted + QuotedNamesFrom(str, next);
      AppendAssoc(result, emitted, QuotedNamesFrom(str, next));
      result := result + emitted;
      i := next;
    }
  }

  /** One iteration at `{` or `,` outside a string: what it emits and where
      the loop goes on. */
  method AfterKeyOpener(str: string, i: nat) returns (emitted: string, next: nat)
    requires i < |str| && IsKeyOpener(str[i]) && !InDoubleQuotes(str, i)
    ensures i < next <= |str|
    ensures QuotedNamesFrom(str, i) == emitted + QuotedNamesFrom(str, next)
    ensures InDoubleQuotes(str, next) == InDoubleQuotes(str, i)
  {
    var ws, j := CopySpaces(str, i + 1);
    emitted := [str[i]] + ws;
    next := i + 1;
    if j < |str| && IsIdentStart(str[j]) {
      var propName, k := ReadIdent(str, j);
      var l := SkipSpaces(str, k);
      if l < |str| && str[l] == ':' {
        assert KeyColonFollows(str, i);
        NoQuoteSameParity(str, i, k);
        emitted := emitted + "\"" + propName + "\"";
        next := k;
      }
    }
  }

  /** A run in which every position is inside a string or holds neither
      `{` nor `,` is copied as it is. */
  lemma {:induction false} CopiedRun(s: string, a: nat, b: nat)
    requires a <= b <= |s|
    requires forall m :: a <= m < b ==> InDoubleQuotes(s, m) || !IsKeyOpener(s[m])
    ensures QuotedNamesFrom(s, a) == s[a..b] + QuotedNamesFrom(s, b)
    decreases b - a
  {
    if a < b {
      CopiedRun(s, a + 1, b);
      CopiedStep(s, a);
      AppendAssoc([s[a]], s[a + 1..b], QuotedNamesFrom(s, b));
      ConsSlice(s, a, b);
    }
  }

  lemma CopiedStep(s: string, a: nat)
    requires a < |s| && (InDoubleQuotes(s, a) || !IsKeyOpener(s[a]))
    ensures QuotedNamesFrom(s, a) == [s[a]] + QuotedNamesFrom(s, a + 1)
  {
  }

  /** Text with no `{` or `,` outside double-quoted strings comes back unchanged. */
  lemma NoOpenerNoChange(s: string)
    requires forall m :: 0 <= m < |s| ==> InDoubleQuotes(s, m) || !IsKeyOpener(s[m])
    ensures QuotedNames(s) == s
  {
    CopiedRun(s, 0, |s|);
  }

  /** A key after `{` or `,` outside a string, followed by whitespace and
      `:`, comes out wrapped in `"`; the whitespace around it and the colon
      are kept. Here j is where the key starts, k where it ends and l the
      colon. */
  lemma KeyIsQuoted(s: string, i: nat, j: nat, k: nat, l: nat)
    requires i < |s| && IsKeyOpener(s[i]) && !InDoubleQuotes(s, i)
    requires j == NextNonSpace(s, i + 1) && j < |s| && IsIdentStart(s[j])
    requires k == IdentEnd(s, j) && l == NextNonSpace(s, k) && l < |s| && s[l] == ':'
    ensures QuotedNamesFrom(s, i)
         == [s[i]] + s[i + 1..j] + "\"" + s[j..k] + "\"" + (s[k..l + 1] + QuotedNamesFrom(s, l + 1))
  {
    KeyStep(s, i, j, k);
    GapHasNoOpener(s, k, l);
    CopiedRun(s, k, l + 1);
    var x := [s[i]] + s[i + 1..j] + "\"" + s[j..k] + "\"";
    Substituted(x, QuotedNamesFrom(s, k), s[k..l + 1] + QuotedNamesFrom(s, l + 1));
  }

  lemma Substituted(x: string, a: string, b: string)
    requires a == b
    ensures x + a == x + b
  {
  }

  /** The whitespace after a key and the colon hold no `{` or `,`. */
  lemma GapHasNoOpener(s: string, k: nat, l: nat)
    requires k <= |s| && l == NextNonSpace(s, k) && l < |s| && s[l] == ':'
    ensures forall m :: k <= m < l + 1 ==> InDoubleQuotes(s, m) || !IsKeyOpener(s[m])
  {
    forall m | k <= m < l + 1
      ensures !IsKeyOpener(s[m])
    {
      if m < l {
        assert IsSpace(s[m]);
      }
    }
  }

  lemma KeyStep(s: string, i: nat, j: nat, k: nat)
    requires i < |s| && IsKeyOpener(s[i]) && !InDoubleQuotes(s, i)
    requires KeyColonFollows(s, i)
    requires j == NextNonSpace(s, i + 1) && k == IdentEnd(s, j)
    ensures QuotedNamesFrom(s, i) == [s[i]] + s[i + 1..j] + "\"" + s[j..k] + "\"" + QuotedNamesFrom(s, k)
  {
  }

  /** After `{` or `,` with no key and colon behind it, the whitespace that
      follows is emitted twice. */
  lemma SpaceAfterOpenerDoubled()
    ensures QuotedNames("{ 1}") == "{  1}"
  {
    var s := "{ 1}";
    assert !KeyColonFollows(s, 0);
    assert NextNonSpace(s, 1) == 2;
    assert QuotedNamesFrom(s, 1) == " 1}";
  }

  lemma KeyQuotedExample()
    ensures QuotedNames("{a:1}") == "{\"a\":1}"
  {
    var s := "{a:1}";
    assert NextNonSpace(s, 1) == 1;
    assert IdentEnd(s, 1) == 2;
    assert NextNonSpace(s, 2) == 2;
    KeyIsQuoted(s, 0, 1, 2, 2);
    CopiedRun(s, 3, 5);
    assert s[1..1] == "" && s[1..2] == "a" && s[2..3] == ":" && s[3..5] == "1}";
  }
}
