/** `attemptFixBrokenJSON` of popup.js, a fallback repair that nothing in
    the program calls: it brackets the text, quotes bare keys that follow
    `{` or `,`, removes comments, and closes a string left open at the end
    of any line but the last. */
module Repair {
  import opened Text
  import opened Json
  import opened Prepass
  import opened ColonStyle
  import opened Quoting

  /** `/^[\{\[]/` on a trimmed text. */
  predicate OpensFirst(t: string) {
    |t| > 0 && IsOpener(t[0])
  }

  /** `/[\}\]]$/` on a trimmed text. */
  predicate ClosesLast(t: string) {
    |t| > 0 && IsCloser(t[|t| - 1])
  }

  /** Steps 1 and 2: `{` in front when the trimmed text does not start with
      an opener, then `}` behind when the trimmed text does not end with a
      closer. */
  function Wrapped(s: string): string {
    var r := if OpensFirst(Trim(s)) then s else "{" + s;
    if ClosesLast(Trim(r)) then r else r + "}"
  }

  /** Prepending `{` gives a text whose trimmed form starts with it. */
  lemma BraceInFrontOpens(s: string)
    ensures OpensFirst(Trim("{" + s))
  {
    TrimKeepsHead("{" + s);
  }

  /** Appending `}` to a text that trims to something starting with an
      opener keeps that start and ends the trimmed form with `}`. */
  lemma BraceBehindCloses(r: string)
    requires OpensFirst(Trim(r))
    ensures OpensFirst(Trim(r + "}")) && ClosesLast(Trim(r + "}"))
  {
    TrimHead(r);
    TrimAppendNonSpace(r, '}');
  }

  /** After the two steps the trimmed text starts with an opener and ends
      with a closer. */
  lemma WrappedIsBracketed(s: string)
    ensures OpensFirst(Trim(Wrapped(s))) && ClosesLast(Trim(Wrapped(s)))
  {
    var r := if OpensFirst(Trim(s)) then s else "{" + s;
    if !OpensFirst(Trim(s)) {
      BraceInFrontOpens(s);
    }
    if !ClosesLast(Trim(r)) {
      BraceBehindCloses(r);
    }
  }

  /** The two steps leave a text alone exactly when its trimmed form is
      already bracketed; otherwise they only add characters around it. */
  lemma WrappedOnlyWhenNeeded(s: string)
    ensures Wrapped(s) == s <==> OpensFirst(Trim(s)) && ClosesLast(Trim(s))
    ensures Wrapped(s) == s || Wrapped(s) == "{" + s || Wrapped(s) == s + "}" || Wrapped(s) == "{" + s + "}"
  {
    var r := if OpensFirst(Trim(s)) then s else "{" + s;
    assert |r| == |s| + (if OpensFirst(Trim(s)) then 0 else 1);
    assert |Wrapped(s)| == |r| + (if ClosesLast(Trim(r)) then 0 else 1);
  }

  predicate IsKeyOpener(c: char) {
    c == '{' || c == ','
  }

  /** `/([{,]\s*)([a-zA-Z_$][a-zA-Z0-9_$]*)\s*:/` matches at i: an opener,
      whitespace, then the colon-style key pattern. Backing off the
      whitespace after the `{` or `,` cannot help, since an identifier never
      starts with whitespace. */
  predicate OpenedKeyAt(s: string, i: nat)
    requires i < |s|
  {
    IsKeyOpener(s[i]) && NextNonSpace(s, i + 1) < |s| && KeyColonAt(s, NextNonSpace(s, i + 1)).Some?
  }

  /** `result.replace(/([{,]\s*)([a-zA-Z_$][a-zA-Z0-9_$]*)\s*:/g, '$1"$2":')`
      on s[i..]: the opener and its whitespace are kept, the key is quoted
      and the whitespace before `:` dropped. */
  function KeysQuotedFrom(s: string, i: nat): string
    requires i <= |s|
    decreases |s| - i
  {
    if i == |s| then ""
    else if OpenedKeyAt(s, i) then
      var j := NextNonSpace(s, i + 1);
      var k := KeyColonAt(s, j).value;
      s[i..j] + (QuotedKey(s[j..k]) + KeysQuotedFrom(s, NextNonSpace(s, k) + 1))
    else [s[i]] + KeysQuotedFrom(s, i + 1)
  }

  function KeysQuoted(s: string): string {
    KeysQuotedFrom(s, 0)
  }

  /** One step of the scan at a match, unfolded. */
  lemma OpenedStep(s: string, i: nat, j: nat, k: nat, n: nat)
    requires i < |s| && OpenedKeyAt(s, i)
    requires j == NextNonSpace(s, i + 1) && KeyColonAt(s, j) == Some(k)
    requires n == NextNonSpace(s, k) + 1 <= |s|
    ensures KeysQuotedFrom(s, i) == s[i..j] + (QuotedKey(s[j..k]) + KeysQuotedFrom(s, n))
  {
  }

  /** One step of the scan elsewhere, unfolded. */
  lemma UnopenedStep(s: string, i: nat)
    requires i < |s| && !OpenedKeyAt(s, i)
    ensures KeysQuotedFrom(s, i) == [s[i]] + KeysQuotedFrom(s, i + 1)
  {
  }

  /** The rewrite inserts `"` and deletes whitespace before `:`, and nothing
      else: every other character survives, in order. */
  lemma {:induction false} KeysQuotedKeepsOthers(s: string, i: nat)
    requires i <= |s|
    ensures Keep(KeysQuotedFrom(s, i), NotQuoteOrSpace) == Keep(s[i..], NotQuoteOrSpace)
    decreases |s| - i, 1
  {
    if i < |s| {
      if OpenedKeyAt(s, i) {
        OpenedStepKeeps(s, i);
      } else {
        KeysQuotedKeepsOthers(s, i + 1);
        UnopenedStep(s, i);
        PlainKept(s, i, KeysQuotedFrom(s, i + 1));
      }
    }
  }

  lemma {:induction false} OpenedStepKeeps(s: string, i: nat)
    requires i < |s| && OpenedKeyAt(s, i)
    ensures Keep(KeysQuotedFrom(s, i), NotQuoteOrSpace) == Keep(s[i..], NotQuoteOrSpace)
    decreases |s| - i, 0
  {
    var j, k, n := OpenedShape(s, i);
    KeysQuotedKeepsOthers(s, n);
    OpenedKeyKept(s, i, j, k, n, KeysQuotedFrom(s, n));
  }

  /** The parts of a match: opener at `i`, key `s[j..k]`, resumption at `n`. */
  lemma OpenedShape(s: string, i: nat) returns (j: nat, k: nat, n: nat)
    requires i < |s| && OpenedKeyAt(s, i)
    ensures i < j < |s| && KeyColonAt(s, j) == Some(k)
    ensures n == NextNonSpace(s, k) + 1 <= |s|
    ensures forall m :: i < m < j ==> IsSpace(s[m])
    ensures forall m :: j <= m < k ==> IsIdentPart(s[m])
    ensures KeysQuotedFrom(s, i) == s[i..j] + (QuotedKey(s[j..k]) + KeysQuotedFrom(s, n))
  {
    j := NextNonSpace(s, i + 1);
    k := KeyColonAt(s, j).value;
    KeyColonMatches(s, j);
    n := NextNonSpace(s, k) + 1;
    OpenedStep(s, i, j, k, n);
  }

  /** One replaced match: the opener and its whitespace, then the quoted key. */
  lemma OpenedKeyKept(s: string, i: nat, j: nat, k: nat, n: nat, rest: string)
    requires i < j < |s| && KeyColonAt(s, j) == Some(k)
    requires n == NextNonSpace(s, k) + 1 <= |s|
    requires Keep(rest, NotQuoteOrSpace) == Keep(s[n..], NotQuoteOrSpace)
    ensures Keep(s[i..j] + (QuotedKey(s[j..k]) + rest), NotQuoteOrSpace) == Keep(s[i..], NotQuoteOrSpace)
  {
    var p := NotQuoteOrSpace;
    MatchKept(s, j, k, n, rest);
    calc {
      Keep(s[i..j] + (QuotedKey(s[j..k]) + rest), p);
      { KeepConcat(s[i..j], QuotedKey(s[j..k]) + rest, p); }
      Keep(s[i..j], p) + Keep(s[j..], p);
      { KeepConcat(s[i..j], s[j..], p); }
      Keep(s[i..j] + s[j..], p);
      { assert s[i..] == s[i..j] + s[j..]; }
      Keep(s[i..], p);
    }
  }

  /** Over positions where the pattern does not match the scan copies. */
  lemma {:induction false} KeysQuotedCopies(s: string, a: nat, b: nat)
    requires a <= b <= |s|
    requires forall m :: a <= m < b ==> !OpenedKeyAt(s, m)
    ensures KeysQuotedFrom(s, a) == s[a..b] + KeysQuotedFrom(s, b)
    decreases b - a
  {
    if a < b {
      KeysQuotedCopies(s, a + 1, b);
      UnopenedStep(s, a);
      ConsSlice(s, a, b);
      AppendAssoc([s[a]], s[a + 1..b], KeysQuotedFrom(s, b));
    }
  }

  /** Text without `:` is left as it is. */
  lemma KeysQuotedWithoutColonIsIdentity(s: string, i: nat)
    requires i <= |s|
    requires forall k :: i <= k < |s| ==> s[k] != ':'
    ensures KeysQuotedFrom(s, i) == s[i..]
  {
    forall m | i <= m < |s|
      ensures !OpenedKeyAt(s, m)
    {
      if OpenedKeyAt(s, m) {
        KeyColonMatches(s, NextNonSpace(s, m + 1));
      }
    }
    KeysQuotedCopies(s, i, |s|);
  }

  /** The output from e on starts with s[e]: a match begins with its opener. */
  lemma KeysQuotedHead(s: string, e: nat)
    requires e < |s|
    ensures |KeysQuotedFrom(s, e)| > 0 && KeysQuotedFrom(s, e)[0] == s[e]
  {
    if OpenedKeyAt(s, e) {
      var j, k, n := OpenedShape(s, e);
    } else {
      UnopenedStep(s, e);
    }
  }

  /** The pattern matches nowhere in r. */
  predicate Unopened(r: string) {
    forall p :: 0 <= p < |r| ==> !OpenedKeyAt(r, p)
  }

  /** A position that does not match in t does not match once text is put
      in front of t: whether the pattern matches depends only on the text
      from the match position on. */
  lemma OpenedKeyShift(u: string, t: string, q: nat)
    requires q < |t| && !OpenedKeyAt(t, q)
    ensures !OpenedKeyAt(u + t, |u| + q)
  {
    var w := u + t;
    var j := NextNonSpace(t, q + 1);
    assert w[|u| + q] == t[q];
    NextNonSpaceShift(u, t, q + 1);
    if j < |t| {
      KeyColonShift(u, t, j);
    }
  }

  /** Positions in an unmatched suffix stay unmatched whatever comes before it. */
  lemma ShiftedStaysUnopened(u: string, t: string)
    requires Unopened(t)
    ensures forall p :: |u| <= p < |u + t| ==> !OpenedKeyAt(u + t, p)
  {
    forall p | |u| <= p < |u + t|
      ensures !OpenedKeyAt(u + t, p)
    {
      OpenedKeyShift(u, t, p - |u|);
    }
  }

  /** No bare key after `{` or `,` is left: the pattern matches nowhere in
      the output. */
  lemma {:induction false} NoOpenedKeyLeft(s: string, i: nat)
    requires i <= |s|
    ensures Unopened(KeysQuotedFrom(s, i))
    decreases |s| - i, 1
  {
    if i < |s| {
      if OpenedKeyAt(s, i) {
        OpenedStaysUnopened(s, i);
      } else {
        NoOpenedKeyLeft(s, i + 1);
        PlainStaysUnopened(s, i);
      }
    }
  }

  /** A copied character in front of unmatched output leaves it unmatched. */
  lemma PlainStaysUnopened(s: string, i: nat)
    requires i < |s| && !OpenedKeyAt(s, i)
    requires Unopened(KeysQuotedFrom(s, i + 1))
    ensures Unopened(KeysQuotedFrom(s, i))
  {
    UnopenedStep(s, i);
    UnopenedHead(s, i);
    ConsThenUnopened(s[i], KeysQuotedFrom(s, i + 1));
  }

  lemma ConsThenUnopened(c: char, rest: string)
    requires !OpenedKeyAt([c] + rest, 0)
    requires Unopened(rest)
    ensures Unopened([c] + rest)
  {
    ShiftedStaysUnopened([c], rest);
  }

  lemma {:induction false} OpenedStaysUnopened(s: string, i: nat)
    requires i < |s| && OpenedKeyAt(s, i)
    ensures Unopened(KeysQuotedFrom(s, i))
    decreases |s| - i, 0
  {
    var j, k, n := OpenedShape(s, i);
    NoOpenedKeyLeft(s, n);
    MatchShape(s, i, j, k);
    QuotedPieceUnopened(s[i..j], s[j..k], KeysQuotedFrom(s, n));
  }

  /** A match is an opener with whitespace after it, then an identifier. */
  lemma MatchShape(s: string, i: nat, j: nat, k: nat)
    requires i < j <= k <= |s|
    requires forall m :: i < m < j ==> IsSpace(s[m])
    requires forall m :: j <= m < k ==> IsIdentPart(s[m])
    ensures |s[i..j]| > 0 && forall m :: 1 <= m < |s[i..j]| ==> IsSpace(s[i..j][m])
    ensures forall m :: 0 <= m < |s[j..k]| ==> IsIdentPart(s[j..k][m])
  {
    assert forall m :: 0 <= m < k - j ==> s[j..k][m] == s[j + m];
    assert forall m :: 1 <= m < j - i ==> s[i..j][m] == s[i + m];
  }

  /** In `{  "key":` followed by unmatched text, nothing matches. */
  lemma QuotedPieceUnopened(pre: string, key: string, rest: string)
    requires |pre| > 0 && forall m :: 1 <= m < |pre| ==> IsSpace(pre[m])
    requires forall m :: 0 <= m < |key| ==> IsIdentPart(key[m])
    requires Unopened(rest)
    ensures Unopened(pre + (QuotedKey(key) + rest))
  {
    var r := pre + (QuotedKey(key) + rest);
    var piece := pre + QuotedKey(key);
    assert r == piece + rest;
    assert r[|pre|] == '"';
    assert forall m :: 1 <= m < |pre| ==> r[m] == pre[m];
    NextNonSpaceIs(r, 1, |pre|);
    forall p | 0 < p < |piece|
      ensures !IsKeyOpener(r[p])
    {
      if |pre| <= p {
        assert r[p] == QuotedKey(key)[p - |pre|];
        if 1 <= p - |pre| <= |key| {
          assert QuotedKey(key)[p - |pre|] == key[p - |pre| - 1];
        }
      }
    }
    ShiftedStaysUnopened(piece, rest);
  }

  /** A character copied by the scan does not start a match in the output:
      what follows the opener is copied up to a character that is not the
      start of a key, or the key is followed by something else than `:`. */
  lemma UnopenedHead(s: string, i: nat)
    requires i < |s| && !OpenedKeyAt(s, i)
    ensures |KeysQuotedFrom(s, i)| > 0 && !OpenedKeyAt(KeysQuotedFrom(s, i), 0)
  {
    UnopenedStep(s, i);
    if IsKeyOpener(s[i]) {
      var j := NextNonSpace(s, i + 1);
      var l := if j < |s| && IsIdentStart(s[j]) then NextNonSpace(s, IdentEnd(s, j + 1)) else j;
      UnopenedRunCopied(s, i, j, l);
      if l < |s| {
        KeysQuotedHead(s, l);
      }
      UnopenedRunStays(s, i, j, l, KeysQuotedFrom(s, l));
    }
  }

  /** The whitespace after an unmatched opener, and the identifier and
      whitespace after that, hold no opener and are copied. */
  lemma UnopenedRunCopied(s: string, i: nat, j: nat, l: nat)
    requires i < |s| && !OpenedKeyAt(s, i) && IsKeyOpener(s[i])
    requires j == NextNonSpace(s, i + 1)
    requires l == if j < |s| && IsIdentStart(s[j]) then NextNonSpace(s, IdentEnd(s, j + 1)) else j
    ensures j <= l <= |s|
    ensures KeysQuotedFrom(s, i) == s[i..l] + KeysQuotedFrom(s, l)
  {
    RunHasNoOpener(s, i, j, l);
    assert forall m :: i < m < l ==> !OpenedKeyAt(s, m);
    KeysQuotedCopies(s, i + 1, l);
    UnopenedStep(s, i);
    ConsSlice(s, i, l);
    AppendAssoc([s[i]], s[i + 1..l], KeysQuotedFrom(s, l));
  }

  /** Whitespace and identifier characters are never `{` or `,`. */
  lemma RunHasNoOpener(s: string, i: nat, j: nat, l: nat)
    requires i < |s| && j == NextNonSpace(s, i + 1)
    requires l == if j < |s| && IsIdentStart(s[j]) then NextNonSpace(s, IdentEnd(s, j + 1)) else j
    ensures forall m :: i < m < l ==> !IsKeyOpener(s[m])
  {
    if j < |s| && IsIdentStart(s[j]) {
      var e := IdentEnd(s, j + 1);
      forall m | i < m < l
        ensures !IsKeyOpener(s[m])
      {
        if m < j {
          assert IsSpace(s[m]);
        } else if m == j {
        } else if m < e {
          assert IsIdentPart(s[m]);
        } else {
          assert IsSpace(s[m]);
        }
      }
    }
  }

  /** The copied run followed by the rest of the output is no match at 0. */
  lemma UnopenedRunStays(s: string, i: nat, j: nat, l: nat, t: string)
    requires i < |s| && IsKeyOpener(s[i])
    requires j == NextNonSpace(s, i + 1) && (j < |s| ==> KeyColonAt(s, j).None?)
    requires l == if j < |s| && IsIdentStart(s[j]) then NextNonSpace(s, IdentEnd(s, j + 1)) else j
    requires l < |s| ==> |t| > 0 && t[0] == s[l]
    requires l == |s| ==> t == ""
    ensures |s[i..l] + t| > 0 && !OpenedKeyAt(s[i..l] + t, 0)
  {
    var r := s[i..l] + t;
    CopiedPrefix(s, i, l, t);
    RunNextNonSpace(s, i, j, l, t);
    var k := RunStaysBare(s, i, j, l, r);
    NotOpenedAtStart(r, k);
  }

  /** After the copied whitespace, the key pattern fails in the copy. */
  lemma RunStaysBare(s: string, i: nat, j: nat, l: nat, r: string) returns (k: nat)
    requires i < |s| && i < j <= l <= |s| && (j < |s| ==> KeyColonAt(s, j).None?)
    requires l == if j < |s| && IsIdentStart(s[j]) then NextNonSpace(s, IdentEnd(s, j + 1)) else j
    requires |r| >= l - i && forall m :: 0 <= m < l - i ==> r[m] == s[i + m]
    requires l < |s| ==> |r| > l - i && r[l - i] == s[l]
    requires l == |s| ==> |r| == l - i
    requires NextNonSpace(r, 1) == j - i
    requires j < |s| ==> r[j - i] == s[j]
    requires j == |s| ==> |r| == j - i
    ensures k == j - i && 0 < |r| && k <= |r| && NextNonSpace(r, 1) == k
    ensures k < |r| ==> KeyColonAt(r, k).None?
  {
    k := j - i;
    if j < |s| && IsIdentStart(s[j]) {
      KeyAfterOpenerStaysBare(s, j, l, r, i);
    } else if j < |s| {
      assert !IsIdentStart(r[k]);
    }
  }

  /** No match at 0 when the key pattern fails after the whitespace. */
  lemma NotOpenedAtStart(r: string, j: nat)
    requires 0 < |r| && j <= |r| && NextNonSpace(r, 1) == j
    requires j < |r| ==> KeyColonAt(r, j).None?
    ensures !OpenedKeyAt(r, 0)
  {
  }

  /** The output after an unmatched opener begins with s[i..l], then s[l]. */
  lemma CopiedPrefix(s: string, i: nat, l: nat, t: string)
    requires i < l <= |s|
    requires l < |s| ==> |t| > 0 && t[0] == s[l]
    requires l == |s| ==> t == ""
    ensures |s[i..l] + t| >= l - i && forall m :: 0 <= m < l - i ==> (s[i..l] + t)[m] == s[i + m]
    ensures l < |s| ==> |s[i..l] + t| > l - i && (s[i..l] + t)[l - i] == s[l]
    ensures l == |s| ==> |s[i..l] + t| == l - i
  {
  }

  /** In the copy, the whitespace after the opener ends where it did in s. */
  lemma RunNextNonSpace(s: string, i: nat, j: nat, l: nat, t: string)
    requires i < |s| && j == NextNonSpace(s, i + 1) && i < j <= l <= |s|
    requires l < |s| ==> |t| > 0 && t[0] == s[l]
    requires l == |s| ==> t == ""
    requires |s[i..l] + t| >= l - i && forall m :: 0 <= m < l - i ==> (s[i..l] + t)[m] == s[i + m]
    requires l < |s| ==> |s[i..l] + t| > l - i && (s[i..l] + t)[l - i] == s[l]
    ensures j - i <= |s[i..l] + t| && NextNonSpace(s[i..l] + t, 1) == j - i
    ensures j < |s| ==> j - i < |s[i..l] + t| && (s[i..l] + t)[j - i] == s[j]
    ensures j == |s| ==> |s[i..l] + t| == j - i
  {
    var r := s[i..l] + t;
    forall k | 1 <= k < j - i
      ensures IsSpace(r[k])
    {
      assert r[k] == s[i + k];
    }
    NextNonSpaceIs(r, 1, j - i);
  }

  /** The identifier after an unmatched opener, copied with the whitespace
      after it, is still not followed by `:`. */
  lemma KeyAfterOpenerStaysBare(s: string, j: nat, l: nat, r: string, i: nat)
    requires i < j < |s| && KeyColonAt(s, j).None? && IsIdentStart(s[j])
    requires l == NextNonSpace(s, IdentEnd(s, j + 1))
    requires |r| >= l - i && forall m :: 0 <= m < l - i ==> r[m] == s[i + m]
    requires l < |s| ==> |r| > l - i && r[l - i] == s[l]
    requires l == |s| ==> |r| == l - i
    ensures KeyColonAt(r, j - i).None?
  {
    var e := IdentEnd(s, j + 1);
    KeyColonAtIs(s, j, e, l);
    CopiedKeyFails(s, r, i, j, e, l);
  }

  /** The failed key pattern of s, seen in a copy r of s[i..l + 1]. */
  lemma CopiedKeyFails(s: string, r: string, i: nat, j: nat, e: nat, l: nat)
    requires i < j < e <= l <= |s| && IsIdentStart(s[j])
    requires forall k :: j + 1 <= k < e ==> IsIdentPart(s[k])
    requires e == |s| || !IsIdentPart(s[e])
    requires forall k :: e <= k < l ==> IsSpace(s[k])
    requires l == |s| || (!IsSpace(s[l]) && s[l] != ':')
    requires |r| >= l - i && forall m :: 0 <= m < l - i ==> r[m] == s[i + m]
    requires l < |s| ==> |r| > l - i && r[l - i] == s[l]
    requires l == |s| ==> |r| == l - i
    ensures KeyColonAt(r, j - i).None?
  {
    assert IsIdentStart(r[j - i]);
    forall k | j - i + 1 <= k < e - i
      ensures IsIdentPart(r[k])
    {
      assert r[k] == s[i + k];
    }
    forall k | e - i <= k < l - i
      ensures IsSpace(r[k])
    {
      assert r[k] == s[i + k];
    }
    if e < l {
      assert r[e - i] == s[e];
    } else if l < |s| {
      assert r[e - i] == s[l];
    }
    IdentEndIs(r, j - i + 1, e - i);
    NextNonSpaceIs(r, e - i, l - i);
    KeyColonAtIs(r, j - i, e - i, l - i);
  }

  /** Quoting twice is quoting once. */
  lemma KeysQuotedIdempotent(s: string)
    ensures KeysQuoted(KeysQuoted(s)) == KeysQuoted(s)
  {
    var r := KeysQuoted(s);
    NoOpenedKeyLeft(s, 0);
    KeysQuotedCopies(r, 0, |r|);
  }

  /** A bare key after `{` is quoted. */
  lemma KeysQuotedExample()
    ensures KeysQuoted("{a:1") == "{\"a\":1"
  {
    var s := "{a:1";
    assert !OpenedKeyAt(s, 3);
    assert KeysQuotedFrom(s, 3) == "1";
    assert NextNonSpace(s, 2) == 2;
    assert KeyColonAt(s, 1) == Some(2);
    assert NextNonSpace(s, 1) == 1;
    assert OpenedKeyAt(s, 0);
    OpenedStep(s, 0, 1, 2, 3);
    assert s[0..1] == "{" && s[1..2] == "a";
  }

  /** The whitespace after the opener is kept; the whitespace between the
      key and `:` goes. */
  lemma KeysQuotedSpacedExample()
    ensures KeysQuoted("{ a :1") == "{ \"a\":1"
  {
    var s := "{ a :1";
    assert !OpenedKeyAt(s, 5);
    assert KeysQuotedFrom(s, 5) == "1";
    assert NextNonSpace(s, 3) == 4;
    assert KeyColonAt(s, 2) == Some(3);
    assert NextNonSpace(s, 1) == 2;
    assert OpenedKeyAt(s, 0);
    OpenedStep(s, 0, 2, 3, 5);
    assert s[0..2] == "{ " && s[2..3] == "a";
  }

  /** A key that is not preceded by `{` or `,` stays bare. */
  lemma KeyAtStartStaysBare()
    ensures KeysQuoted("a:1") == "a:1"
  {
    var s := "a:1";
    assert KeysQuotedFrom(s, 3) == "";
    assert KeysQuotedFrom(s, 2) == "1";
    assert KeysQuotedFrom(s, 1) == ":1";
  }

  /** The line terminators of JavaScript regular expressions: `.` does not
      match them and `$` under the `m` flag matches before them. */
  predicate IsLineTerminator(c: char) {
    c == '\n' || c == '\r' || c == '\U{2028}' || c == '\U{2029}'
  }

  /** The first index at or after i holding a line terminator (|s| if none). */
  function LineEnd(s: string, i: nat): (r: nat)
    requires i <= |s|
    ensures i <= r <= |s|
    ensures forall k :: i <= k < r ==> !IsLineTerminator(s[k])
    ensures r == |s| || IsLineTerminator(s[r])
    decreases |s| - i
  {
    if i == |s| || IsLineTerminator(s[i]) then i else LineEnd(s, i + 1)
  }

  predicate LineCommentAt(s: string, i: nat)
    requires i < |s|
  {
    i + 1 < |s| && s[i] == '/' && s[i + 1] == '/'
  }

  /** No `//` occurs in t. */
  predicate NoLineComment(t: string) {
    forall k :: 0 <= k < |t| - 1 ==> !(t[k] == '/' && t[k + 1] == '/')
  }

  /** `result.replace(/\/\/.*$/gm, '')` on s[i..]: each `//` and the rest of
      its line go, the line terminator stays. No `//` is left, wherever it
      stood, inside a string such as `"http://x"` too. */
  function LineCommentsStrippedFrom(s: string, i: nat): (r: string)
    requires i <= |s|
    ensures NoLineComment(r)
    ensures |r| > 0 ==> i < |s| && ((r[0] == s[i] && !LineCommentAt(s, i)) || IsLineTerminator(r[0]))
    decreases |s| - i
  {
    if i == |s| then ""
    else if LineCommentAt(s, i) then LineCommentsStrippedFrom(s, LineEnd(s, i + 2))
    else
      var rest := LineCommentsStrippedFrom(s, i + 1);
      assert |rest| > 0 ==> rest[0] != '/' || s[i] != '/';
      [s[i]] + rest
  }

  function LineCommentsStripped(s: string): string {
    LineCommentsStrippedFrom(s, 0)
  }

  /** Removing line comments keeps every line terminator, so the text keeps
      its lines. */
  lemma {:induction false} LineCommentsKeepLines(s: string, i: nat)
    requires i <= |s|
    ensures Keep(LineCommentsStrippedFrom(s, i), IsLineTerminator) == Keep(s[i..], IsLineTerminator)
    decreases |s| - i
  {
    if i < |s| {
      if LineCommentAt(s, i) {
        var e := LineCommentStep(s, i);
        LineCommentsKeepLines(s, e);
        KeepSkip(s[i..e], s[e..], IsLineTerminator);
      } else {
        LineCommentsKeepLines(s, i + 1);
        LinePlainStep(s, i);
        assert s[i..] == [s[i]] + s[i + 1..];
        KeepCons(s[i], s[i + 1..], IsLineTerminator);
        KeepCons(s[i], LineCommentsStrippedFrom(s, i + 1), IsLineTerminator);
      }
    }
  }

  /** Position m is deleted by the line-comment rule: a `//` starts at or
      before it on its line, and it is not the line terminator. */
  predicate InLineComment(s: string, m: nat)
    requires m < |s|
    decreases m
  {
    !IsLineTerminator(s[m]) && (LineCommentAt(s, m) || (m > 0 && InLineComment(s, m - 1)))
  }

  /** keep marks exactly the positions the line-comment rule keeps. */
  predicate IsCommentMask(s: string, keep: seq<bool>) {
    |keep| == |s| && forall m {:trigger InLineComment(s, m)} :: 0 <= m < |s| ==> keep[m] == !InLineComment(s, m)
  }

  /** The positions the line-comment rule keeps. */
  function CommentMask(s: string): (keep: seq<bool>)
    ensures |keep| == |s| && forall m :: 0 <= m < |s| ==> keep[m] == !InLineComment(s, m)
  {
    seq(|s|, m requires 0 <= m < |s| => !InLineComment(s, m))
  }

  /** The scan at i does not continue a comment begun before i. */
  predicate LineFresh(s: string, i: nat)
    requires i <= |s|
  {
    0 < i < |s| && !IsLineTerminator(s[i]) ==> !InLineComment(s, i - 1)
  }

  /** The scan deletes exactly the positions InLineComment names: each line
      is cut at its first `//`. */
  lemma {:induction false} LineCommentsRemoved(s: string, keep: seq<bool>, i: nat)
    requires IsCommentMask(s, keep)
    requires i <= |s| && LineFresh(s, i)
    ensures LineCommentsStrippedFrom(s, i) == Selected(s, keep, i)
    decreases |s| - i, 1
  {
    if i < |s| {
      if LineCommentAt(s, i) {
        LineCommentCut(s, keep, i);
      } else {
        LinePlainKept(s, keep, i);
        LineCommentsRemoved(s, keep, i + 1);
        LinePlainStep(s, i);
      }
    }
  }

  lemma {:induction false} LineCommentCut(s: string, keep: seq<bool>, i: nat)
    requires IsCommentMask(s, keep)
    requires i < |s| && LineCommentAt(s, i)
    ensures LineCommentsStrippedFrom(s, i) == Selected(s, keep, i)
    decreases |s| - i, 0
  {
    var e := LineCommentShape(s, keep, i);
    LineCommentsRemoved(s, keep, e);
  }

  /** A comment at i: both sides continue at the end of its line. */
  lemma LineCommentShape(s: string, keep: seq<bool>, i: nat) returns (e: nat)
    requires IsCommentMask(s, keep)
    requires i < |s| && LineCommentAt(s, i)
    ensures i < e <= |s| && LineFresh(s, e)
    ensures LineCommentsStrippedFrom(s, i) == LineCommentsStrippedFrom(s, e)
    ensures Selected(s, keep, i) == Selected(s, keep, e)
  {
    e := LineEnd(s, i + 2);
    LineCommentMasked(s, keep, i, e);
    SelectedSkips(s, keep, i, e);
  }

  /** What the mask says about a comment: all of it up to its line end is out. */
  lemma LineCommentMasked(s: string, keep: seq<bool>, i: nat, e: nat)
    requires IsCommentMask(s, keep)
    requires i < |s| && LineCommentAt(s, i) && e == LineEnd(s, i + 2)
    ensures |keep| == |s| && forall m :: i <= m < e ==> !keep[m]
  {
    forall m | i <= m < e
      ensures !keep[m]
    {
      CommentReaches(s, i, m);
    }
  }

  /** A `//` at p covers every later position of its line. */
  lemma {:induction false} CommentReaches(s: string, p: nat, m: nat)
    requires p <= m < |s| && LineCommentAt(s, p)
    requires forall q :: p <= q <= m ==> !IsLineTerminator(s[q])
    ensures InLineComment(s, m)
    decreases m
  {
    if m > p {
      CommentReaches(s, p, m - 1);
    }
  }

  /** Every deleted position has a `//` at or before it on its line. */
  lemma {:induction false} CommentStartOf(s: string, m: nat) returns (p: nat)
    requires m < |s| && InLineComment(s, m)
    ensures p <= m && LineCommentAt(s, p)
    ensures forall q :: p <= q <= m ==> !IsLineTerminator(s[q])
    decreases m
  {
    if LineCommentAt(s, m) {
      p := m;
    } else {
      p := CommentStartOf(s, m - 1);
    }
  }

  /** Outside a comment the scan copies the character and stays outside. */
  lemma LinePlainKept(s: string, keep: seq<bool>, i: nat)
    requires IsCommentMask(s, keep)
    requires i < |s| && !LineCommentAt(s, i) && LineFresh(s, i)
    ensures Selected(s, keep, i) == [s[i]] + Selected(s, keep, i + 1)
    ensures LineFresh(s, i + 1)
  {
    assert !InLineComment(s, i);
  }

  lemma LinePlainStep(s: string, i: nat)
    requires i < |s| && !LineCommentAt(s, i)
    ensures LineCommentsStrippedFrom(s, i) == [s[i]] + LineCommentsStrippedFrom(s, i + 1)
  {
  }

  /** The whole rewrite is s less exactly its InLineComment positions. */
  lemma LineCommentsStrippedIsMask(s: string)
    ensures LineCommentsStripped(s) == Selected(s, CommentMask(s), 0)
  {
    LineCommentsRemoved(s, CommentMask(s), 0);
  }

  /** One step of the scan at a comment: it resumes at the line end e,
      and the text skipped holds no line terminator. */
  lemma LineCommentStep(s: string, i: nat) returns (e: nat)
    requires i < |s| && LineCommentAt(s, i)
    ensures i < e <= |s| && LineCommentsStrippedFrom(s, i) == LineCommentsStrippedFrom(s, e)
    ensures s[i..] == s[i..e] + s[e..]
    ensures forall k :: 0 <= k < |s[i..e]| ==> !IsLineTerminator(s[i..e][k])
  {
    e := LineEnd(s, i + 2);
    assert forall k :: 0 <= k < e - i ==> s[i..e][k] == s[i + k];
  }

  /** A `//` inside a string starts a comment as well: the string `"//"`
      loses its closing quote. */
  lemma LineCommentInStringExample()
    ensures LineCommentsStripped("\"//\"") == "\""
  {
    var s := "\"//\"";
    assert LineEnd(s, 3) == 4;
    assert LineCommentAt(s, 1);
    assert LineCommentsStrippedFrom(s, 1) == "";
  }

  predicate BlockOpenAt(s: string, i: nat)
    requires i < |s|
  {
    i + 1 < |s| && s[i] == '/' && s[i + 1] == '*'
  }

  // The first index k at or after j where the comment closer (star, slash)
  // starts.
  function BlockCloseFrom(s: string, j: nat): (r: Option<nat>)
    requires j <= |s|
    ensures r.Some? ==> j <= r.value && r.value + 1 < |s| && s[r.value] == '*' && s[r.value + 1] == '/'
    ensures r.None? ==> forall k :: j <= k < |s| - 1 ==> !(s[k] == '*' && s[k + 1] == '/')
    decreases |s| - j
  {
    if j + 1 >= |s| then None
    else if s[j] == '*' && s[j + 1] == '/' then Some(j)
    else BlockCloseFrom(s, j + 1)
  }

  // The block-comment replacement of step 4 (a lazy match from slash, star
  // to the next star, slash) on s[i..]: each comment opener that has a closer
  // after it goes, up to the first such closer, whatever lies between, line
  // terminators included; an opener with no closer after it stays. It only
  // ever deletes.
  function BlockCommentsStrippedFrom(s: string, i: nat): (r: string)
    requires i <= |s|
    ensures |r| <= |s| - i
    decreases |s| - i
  {
    if i == |s| then ""
    else if BlockAt(s, i) then BlockCommentsStrippedFrom(s, BlockCloseFrom(s, i + 2).value + 2)
    else [s[i]] + BlockCommentsStrippedFrom(s, i + 1)
  }

  /** The block-comment pattern matches at i: an opener with a closer after it. */
  predicate BlockAt(s: string, i: nat)
    requires i < |s|
  {
    BlockOpenAt(s, i) && BlockCloseFrom(s, i + 2).Some?
  }

  /** The closer BlockCloseFrom finds is the first one: the match is lazy. */
  lemma {:induction false} BlockCloseIsFirst(s: string, j: nat)
    requires j <= |s| && BlockCloseFrom(s, j).Some?
    ensures forall k :: j <= k < BlockCloseFrom(s, j).value ==> !(s[k] == '*' && s[k + 1] == '/')
    decreases |s| - j
  {
    if !(s[j] == '*' && s[j + 1] == '/') {
      BlockCloseIsFirst(s, j + 1);
    }
  }

  /** One step of the scan at a match, unfolded. */
  lemma BlockStep(s: string, i: nat)
    requires i < |s| && BlockAt(s, i)
    ensures BlockCommentsStrippedFrom(s, i) == BlockCommentsStrippedFrom(s, BlockCloseFrom(s, i + 2).value + 2)
  {
  }

  /** One step of the scan elsewhere, unfolded. */
  lemma BlockPlainStep(s: string, i: nat)
    requires i < |s| && !BlockAt(s, i)
    ensures BlockCommentsStrippedFrom(s, i) == [s[i]] + BlockCommentsStrippedFrom(s, i + 1)
  {
  }

  /** Over positions where the pattern does not match the scan copies. */
  lemma {:induction false} BlockCopies(s: string, a: nat, b: nat)
    requires a <= b <= |s|
    requires forall m :: a <= m < b ==> !BlockAt(s, m)
    ensures BlockCommentsStrippedFrom(s, a) == s[a..b] + BlockCommentsStrippedFrom(s, b)
    decreases b - a
  {
    if a < b {
      BlockCopies(s, a + 1, b);
      BlockPlainStep(s, a);
      ConsSlice(s, a, b);
      AppendAssoc([s[a]], s[a + 1..b], BlockCommentsStrippedFrom(s, b));
    }
  }

  /** The output is the text up to the leftmost match, then the output from
      just after that match's first closer on: matches are disjoint runs,
      each from an opener to the first closer after it. */
  lemma BlockCommentsLeftmost(s: string, i: nat, p: nat)
    requires i <= p < |s| && BlockAt(s, p)
    requires forall q :: i <= q < p ==> !BlockAt(s, q)
    ensures BlockCommentsStrippedFrom(s, i) == s[i..p] + BlockCommentsStrippedFrom(s, BlockCloseFrom(s, p + 2).value + 2)
  {
    BlockCopies(s, i, p);
    BlockStep(s, p);
  }

  /** Where the pattern matches nowhere the text is left as it is. */
  lemma BlockStripWithoutMatchIsIdentity(s: string, i: nat)
    requires i <= |s|
    requires forall q :: i <= q < |s| ==> !BlockAt(s, q)
    ensures BlockCommentsStrippedFrom(s, i) == s[i..]
  {
    BlockCopies(s, i, |s|);
  }

  function BlockCommentsStripped(s: string): string {
    BlockCommentsStrippedFrom(s, 0)
  }

  // Text without a comment opener (slash, star) is left as it is.
  lemma {:induction false} BlockStripWithoutOpenIsIdentity(s: string, i: nat)
    requires i <= |s|
    requires forall k :: i <= k < |s| - 1 ==> !(s[k] == '/' && s[k + 1] == '*')
    ensures BlockCommentsStrippedFrom(s, i) == s[i..]
    decreases |s| - i
  {
    if i < |s| {
      BlockStripWithoutOpenIsIdentity(s, i + 1);
      assert s[i..] == [s[i]] + s[i + 1..];
    }
  }

  // A block comment goes even across a line break, so two lines become one;
  // an unclosed comment opener stays.
  lemma BlockCommentExamples()
    ensures BlockCommentsStripped("a/*\n*/b") == "ab"
    ensures BlockCommentsStripped("a/*b") == "a/*b"
  {
    var s := "a/*\n*/b";
    assert BlockCommentsStrippedFrom(s, 6) == "b";
    assert BlockCloseFrom(s, 3) == Some(4);
    assert BlockOpenAt(s, 1);
    assert !BlockOpenAt(s, 0);
    var t := "a/*b";
    assert BlockCommentsStrippedFrom(t, 3) == "b";
    assert BlockCommentsStrippedFrom(t, 2) == "*b";
    assert BlockCloseFrom(t, 3).None?;
    assert BlockCommentsStrippedFrom(t, 1) == "/*b";
  }

  // Removing one comment can join its neighbours into a new one, which the
  // single pass leaves: the step is not idempotent, and text with no
  // comment left is no property of it.
  lemma BlockCommentCanReappear()
    ensures BlockCommentsStripped("//**/**/") == "/**/"
    ensures BlockCommentsStripped("/**/") == ""
  {
    var s := "//**/**/";
    assert BlockCommentsStrippedFrom(s, 7) == "/";
    assert BlockCommentsStrippedFrom(s, 6) == "*/";
    assert BlockCommentsStrippedFrom(s, 5) == "**/";
    assert BlockCloseFrom(s, 3) == Some(3);
    assert BlockOpenAt(s, 1);
    assert !BlockOpenAt(s, 0);
    var t := "/**/";
    assert BlockCloseFrom(t, 2) == Some(2);
    assert BlockOpenAt(t, 0);
  }

  /** Steps 1 to 4, the text whose lines step 5 repairs. */
  function Stripped(s: string): string {
    BlockCommentsStripped(LineCommentsStripped(KeysQuoted(Wrapped(s))))
  }

  /** Step 5 on one line: the quote state at the end of the line, scanned
      from outside a string; the open quote is appended when the line ends
      inside a string and is not the last line. */
  function ClosedLine(line: string, last: bool): string {
    var st := QuoteAt(line, |line|);
    if st.inString && !last then line + st.quoteType else line
  }

  /** Step 5 on every line. */
  function ClosedLines(lines: seq<string>): (r: seq<string>)
    ensures |r| == |lines|
  {
    seq(|lines|, k requires 0 <= k < |lines| => ClosedLine(lines[k], k == |lines| - 1))
  }

  /** `attemptFixBrokenJSON`. */
  function FixedBroken(s: string): string {
    Join(ClosedLines(Split(Stripped(s), '\n')), "\n")
  }

  /** Each line gains at most one character, a quote, and only a line that
      ends inside a string and is not the last. */
  lemma AtMostOneQuoteAppended(lines: seq<string>, k: nat)
    requires k < |lines|
    ensures var c := ClosedLines(lines)[k];
      c == lines[k] || (k < |lines| - 1 && QuoteAt(lines[k], |lines[k]|).inString &&
        (c == lines[k] + "\"" || c == lines[k] + "'"))
    ensures ClosedLines(lines)[|lines| - 1] == lines[|lines| - 1]
  {
  }

  /** Step 5 keeps the line count: splitting the result at `\n` gives the
      repaired lines, one for each line of the text before it. */
  lemma LineCountKept(s: string)
    ensures Split(FixedBroken(s), '\n') == ClosedLines(Split(Stripped(s), '\n'))
    ensures |Split(FixedBroken(s), '\n')| == |Split(Stripped(s), '\n')|
  {
    var lines := Split(Stripped(s), '\n');
    var closed := ClosedLines(lines);
    forall k | 0 <= k < |closed|
      ensures '\n' !in closed[k]
    {
      AtMostOneQuoteAppended(lines, k);
    }
    SplitJoin(closed, '\n');
  }

  /** The quote state of a prefix does not depend on what follows it. */
  lemma {:induction false} QuoteAtPrefix(a: string, b: string, n: nat)
    requires n <= |a|
    ensures QuoteAt(a + b, n) == QuoteAt(a, n)
  {
    if n > 0 {
      QuoteAtPrefix(a, b, n - 1);
      assert (a + b)[n - 1] == a[n - 1];
      assert Escaped(a + b, n - 1) == Escaped(a, n - 1);
    }
  }

  /** The appended quote closes the string, unless the line ends with a
      backslash, which escapes it. */
  lemma AppendedQuoteCloses(line: string)
    requires QuoteAt(line, |line|).inString
    requires line[|line| - 1] != '\\'
    ensures var c := ClosedLine(line, false); !QuoteAt(c, |c|).inString
  {
    var st := QuoteAt(line, |line|);
    var c := line + st.quoteType;
    assert |st.quoteType| == 1;
    assert c[|line|] == st.quoteType[0];
    QuoteAtPrefix(line, st.quoteType, |line|);
    assert !Escaped(c, |line|);
    assert Toggles(st, c[|line|], false);
  }

  /** A line that ends with a backslash inside a string stays open after the
      repair: the appended quote is escaped. */
  lemma BackslashKeepsStringOpen()
    ensures ClosedLine("\"a\\", false) == "\"a\\\""
    ensures QuoteAt("\"a\\\"", 4).inString
  {
    var line := "\"a\\";
    assert QuoteAt(line, 1) == QuoteState(true, "\"");
    assert QuoteAt(line, 3) == QuoteState(true, "\"");
    var c := "\"a\\\"";
    QuoteAtPrefix(line, "\"", 3);
    assert line + "\"" == c;
    assert Escaped(c, 3);
  }

  /** The inner loop of step 5: the quote state at the end of a line,
      starting from the state the outer loop holds at a line start, which is
      always outside a string. */
  method ScanLine(line: string, inString0: bool, quoteChar0: string) returns (inString: bool, quoteChar: string)
    requires !inString0 && quoteChar0 == ""
    ensures QuoteState(inString, quoteChar) == QuoteAt(line, |line|)
  {
    inString, quoteChar := inString0, quoteChar0;
    var j := 0;
    while j < |line|
      invariant 0 <= j <= |line|
      invariant QuoteState(inString, quoteChar) == QuoteAt(line, j)
    {
      var ch := line[j];
      var escaped := j > 0 && line[j - 1] == '\\';
      if !inString && (ch == '"' || ch == '\'') && !escaped {
        inString := true;
        quoteChar := [ch];
      } else if inString && [ch] == quoteChar && !escaped {
        inString := false;
        quoteChar := "";
      }
      j := j + 1;
    }
  }

  /** `attemptFixBrokenJSON`: steps 1 to 4 are the four replacements, step 5
      rewrites the array of lines in place, carrying the quote state from
      line to line and resetting it after a repair. */
  method AttemptFixBrokenJson(str: string) returns (result: string)
    ensures result == FixedBroken(str)
  {
    result := Stripped(str);
    var lines := CloseOpenStrings(Split(result, '\n'));
    result := Join(lines, "\n");
  }

  /** Step 5 of `attemptFixBrokenJSON`: the loop over the array of lines. */
  method CloseOpenStrings(parts: seq<string>) returns (closed: seq<string>)
    ensures closed == ClosedLines(parts)
  {
    var lines := new string[|parts|](k requires 0 <= k < |parts| => parts[k]);
    var inString := false;
    var quoteChar := "";
    var i := 0;
    while i < lines.Length
      invariant 0 <= i <= lines.Length == |parts|
      invariant forall k :: 0 <= k < i ==> lines[k] == ClosedLine(parts[k], k == |parts| - 1)
      invariant forall k :: i <= k < |parts| ==> lines[k] == parts[k]
      invariant i < |parts| ==> !inString && quoteChar == ""
    {
      var line := lines[i];
      inString, quoteChar := ScanLine(line, inString, quoteChar);
      ghost var before := lines[..];
      if inString && i < lines.Length - 1 {
        lines[i] := line + quoteChar;
        inString := false;
        quoteChar := "";
      }
      assert lines[i] == ClosedLine(parts[i], i == |parts| - 1);
      assert forall k :: 0 <= k < |parts| && k != i ==> lines[k] == before[k];
      i := i + 1;
    }
    closed := lines[..];
  }
}
