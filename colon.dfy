/** The colon-style reshaper of `convertJsObjectToJson`, taken when the
    truncated text has no `=`: two global regular-expression replacements,
    modelled as left-to-right scans with JavaScript's leftmost,
    non-overlapping semantics. Neither pays attention to strings. */
module ColonStyle {
  import opened Text
  import opened Json

  predicate IsCloser(c: char) {
    c == '}' || c == ']'
  }

  /** `/,\s*([}\]])/` matches at i. Backtracking cannot help: whitespace is
      never a closer, so only the longest whitespace run can be followed by one. */
  predicate TrailingCommaAt(s: string, i: nat)
    requires i < |s|
  {
    s[i] == ',' && NextNonSpace(s, i + 1) < |s| && IsCloser(s[NextNonSpace(s, i + 1)])
  }

  /** `s.replace(/,\s*([}\]])/g, '$1')` on s[i..]. */
  function DropTrailingCommasFrom(s: string, i: nat): string
    requires i <= |s|
    decreases |s| - i
  {
    if i == |s| then ""
    else
      var j := if TrailingCommaAt(s, i) then NextNonSpace(s, i + 1) else i;
      [s[j]] + DropTrailingCommasFrom(s, j + 1)
  }

  /** The rewrite deletes commas and whitespace and nothing else: every
      other character survives, in order. */
  lemma {:induction false} DropKeepsOthers(s: string, i: nat)
    requires i <= |s|
    ensures Keep(DropTrailingCommasFrom(s, i), NotCommaOrSpace) == Keep(s[i..], NotCommaOrSpace)
    decreases |s| - i
  {
    if i < |s| {
      var j := if TrailingCommaAt(s, i) then NextNonSpace(s, i + 1) else i;
      DropKeepsOthers(s, j + 1);
      DropStepKeeps(s, i, j, DropTrailingCommasFrom(s, j + 1));
    }
  }

  function DropTrailingCommas(s: string): string {
    DropTrailingCommasFrom(s, 0)
  }

  predicate NotCommaOrSpace(c: char) {
    c != ',' && !IsSpace(c)
  }

  /** One step of the scan: the character at j is emitted, preceded (when
      the comma rule fired at i) by a comma and whitespace that are not. */
  lemma DropStepKeeps(s: string, i: nat, j: nat, rest: string)
    requires i < |s|
    requires j == if TrailingCommaAt(s, i) then NextNonSpace(s, i + 1) else i
    requires Keep(rest, NotCommaOrSpace) == Keep(s[j + 1..], NotCommaOrSpace)
    ensures Keep([s[j]] + rest, NotCommaOrSpace) == Keep(s[i..], NotCommaOrSpace)
  {
    SliceAt(s, i, j);
    assert forall k :: 0 <= k < |s[i..j]| ==> !NotCommaOrSpace(s[i..j][k]);
    KeepAfterSkip(s[i..j], s[j], s[j + 1..], rest, NotCommaOrSpace);
  }

  /** Text in which no comma is followed (after whitespace) by a closer is
      left as it is. */
  lemma {:induction false} DropWithoutMatchIsIdentity(s: string, i: nat)
    requires i <= |s|
    requires forall k :: i <= k < |s| ==> !TrailingCommaAt(s, k)
    ensures DropTrailingCommasFrom(s, i) == s[i..]
    decreases |s| - i
  {
    if i < |s| {
      DropWithoutMatchIsIdentity(s, i + 1);
      assert s[i..] == [s[i]] + s[i + 1..];
    }
  }

  /** A comma and the whitespace after it go when a closer follows. */
  lemma DropExample()
    ensures DropTrailingCommas("[, ]") == "[]"
  {
    var s := "[, ]";
    assert NextNonSpace(s, 2) == 3;
    assert DropTrailingCommasFrom(s, 1) == "]";
    assert !TrailingCommaAt(s, 0);
  }

  /** Because matches do not overlap, of a run of commas before a closer only
      the last one goes. */
  lemma DropCommaRunExample()
    ensures DropTrailingCommas(",,}") == ",}"
  {
    var s := ",,}";
    assert NextNonSpace(s, 2) == 2;
    assert DropTrailingCommasFrom(s, 1) == "}" + DropTrailingCommasFrom(s, 3);
    assert NextNonSpace(s, 1) == 1;
    assert !TrailingCommaAt(s, 0);
  }

  /** Position m is deleted by the comma rule: it is a comma the rule
      matches, or whitespace between such a comma and its closer. */
  predicate Dropped(s: string, m: nat)
    requires m < |s|
  {
    TrailingCommaAt(s, m)
    || (IsSpace(s[m]) && SpaceRunStart(s, m) > 0 && TrailingCommaAt(s, SpaceRunStart(s, m) - 1))
  }

  /** The positions the comma rule keeps. */
  function DropMask(s: string): (keep: seq<bool>)
    ensures |keep| == |s| && forall m :: 0 <= m < |s| ==> keep[m] == !Dropped(s, m)
  {
    seq(|s|, m requires 0 <= m < |s| => !Dropped(s, m))
  }

  /** keep marks exactly the positions the comma rule keeps. */
  predicate IsDropMask(s: string, keep: seq<bool>) {
    |keep| == |s| && forall m {:trigger Dropped(s, m)} :: 0 <= m < |s| ==> keep[m] == !Dropped(s, m)
  }

  /** The scan at i is not inside the whitespace of a match. */
  predicate OutsideMatch(s: string, i: nat)
    requires i <= |s|
  {
    i < |s| && IsSpace(s[i]) ==> !Dropped(s, i)
  }

  /** The scan deletes exactly the positions Dropped names and keeps the
      rest in order, provided it starts outside a match. Every comma at
      which the pattern matches is deleted: no two matches overlap. */
  lemma {:induction false} DropRemovesMatches(s: string, keep: seq<bool>, i: nat)
    requires IsDropMask(s, keep)
    requires i <= |s|
    requires OutsideMatch(s, i)
    ensures DropTrailingCommasFrom(s, i) == Selected(s, keep, i)
    decreases |s| - i, 1
  {
    if i < |s| {
      if TrailingCommaAt(s, i) {
        DropMatchRemoved(s, keep, i);
      } else {
        DropPlainKept(s, keep, i);
        DropResumesAfterPlain(s, i);
        DropRemovesMatches(s, keep, i + 1);
        DropPlainStep(s, i);
      }
    }
  }

  lemma {:induction false} DropMatchRemoved(s: string, keep: seq<bool>, i: nat)
    requires IsDropMask(s, keep)
    requires i < |s| && TrailingCommaAt(s, i)
    ensures DropTrailingCommasFrom(s, i) == Selected(s, keep, i)
    decreases |s| - i, 0
  {
    var j := DropMatchShape(s, keep, i);
    DropResumesOutside(s, j + 1);
    DropRemovesMatches(s, keep, j + 1);
  }

  /** At a match both sides continue with the closer at j. */
  lemma DropMatchShape(s: string, keep: seq<bool>, i: nat) returns (j: nat)
    requires IsDropMask(s, keep)
    requires i < |s| && TrailingCommaAt(s, i)
    ensures i < j < |s| && IsCloser(s[j])
    ensures DropTrailingCommasFrom(s, i) == [s[j]] + DropTrailingCommasFrom(s, j + 1)
    ensures Selected(s, keep, i) == [s[j]] + Selected(s, keep, j + 1)
  {
    j := NextNonSpace(s, i + 1);
    DropMatchSkipped(s, keep, i, j);
    DropMatchStep(s, i, j);
  }

  /** One step of the scan at a match, unfolded. */
  lemma DropMatchStep(s: string, i: nat, j: nat)
    requires i < |s| && TrailingCommaAt(s, i) && j == NextNonSpace(s, i + 1)
    ensures j < |s| && DropTrailingCommasFrom(s, i) == [s[j]] + DropTrailingCommasFrom(s, j + 1)
  {
  }

  /** One step of the scan elsewhere, unfolded. */
  lemma DropPlainStep(s: string, i: nat)
    requires i < |s| && !TrailingCommaAt(s, i)
    ensures DropTrailingCommasFrom(s, i) == [s[i]] + DropTrailingCommasFrom(s, i + 1)
  {
  }

  lemma DropPlainKept(s: string, keep: seq<bool>, i: nat)
    requires IsDropMask(s, keep)
    requires i < |s| && !TrailingCommaAt(s, i)
    requires OutsideMatch(s, i)
    ensures Selected(s, keep, i) == [s[i]] + Selected(s, keep, i + 1)
  {
    assert !Dropped(s, i);
  }

  /** A match at i: the comma and the whitespace after it are masked out,
      the closer is kept. */
  lemma DropMatchSkipped(s: string, keep: seq<bool>, i: nat, j: nat)
    requires IsDropMask(s, keep)
    requires i < |s| && TrailingCommaAt(s, i) && j == NextNonSpace(s, i + 1)
    ensures j < |s| && Selected(s, keep, i) == [s[j]] + Selected(s, keep, j + 1)
  {
    MaskAtMatch(s, keep, i, j);
    SelectedSkipsTo(s, keep, i, j);
  }

  /** What the mask says about a match: its comma and whitespace are out,
      its closer is in. */
  lemma MaskAtMatch(s: string, keep: seq<bool>, i: nat, j: nat)
    requires IsDropMask(s, keep)
    requires i < |s| && TrailingCommaAt(s, i) && j == NextNonSpace(s, i + 1)
    ensures i < j < |s| && |keep| == |s|
    ensures forall m :: i <= m < j ==> !keep[m]
    ensures keep[j]
  {
    CommaRunDropped(s, i, j);
    forall m | i <= m < j
      ensures !keep[m]
    {
      assert Dropped(s, m);
    }
    assert IsCloser(s[j]) && !Dropped(s, j);
  }

  /** Selection over a dropped run continues at the next kept position. */
  lemma SelectedSkipsTo(s: string, keep: seq<bool>, i: nat, j: nat)
    requires i <= j < |s| && |keep| == |s|
    requires forall m :: i <= m < j ==> !keep[m]
    requires keep[j]
    ensures Selected(s, keep, i) == [s[j]] + Selected(s, keep, j + 1)
  {
    SelectedSkips(s, keep, i, j);
  }

  /** The comma of a match and the whitespace after it are all Dropped. */
  lemma CommaRunDropped(s: string, i: nat, j: nat)
    requires i < |s| && TrailingCommaAt(s, i) && j == NextNonSpace(s, i + 1)
    ensures forall m :: i <= m < j ==> Dropped(s, m)
  {
    forall m | i < m < j
      ensures Dropped(s, m)
    {
      SpaceRunStartIs(s, m, i + 1);
    }
  }

  /** Just after a closer the scan is outside every match. */
  lemma DropResumesOutside(s: string, k: nat)
    requires 0 < k <= |s| && IsCloser(s[k - 1])
    ensures OutsideMatch(s, k)
  {
    if k < |s| && IsSpace(s[k]) {
      SpaceRunStartIs(s, k, k);
    }
  }

  /** After a kept position that starts no match, the scan is outside every match. */
  lemma DropResumesAfterPlain(s: string, i: nat)
    requires i < |s| && !TrailingCommaAt(s, i)
    requires OutsideMatch(s, i)
    ensures OutsideMatch(s, i + 1)
  {
    if i + 1 < |s| && IsSpace(s[i + 1]) {
      if IsSpace(s[i]) {
        assert SpaceRunStart(s, i + 1) == SpaceRunStart(s, i);
      } else {
        assert SpaceRunStart(s, i + 1) == i + 1;
      }
    }
  }

  /** The whole rewrite is s less exactly its Dropped positions. */
  lemma DropTrailingCommasIsMask(s: string)
    ensures DropTrailingCommas(s) == Selected(s, DropMask(s), 0)
  {
    if 0 < |s| && IsSpace(s[0]) {
      assert SpaceRunStart(s, 0) == 0;
    }
    DropRemovesMatches(s, DropMask(s), 0);
  }

  /** `/([a-zA-Z_$][a-zA-Z0-9_$]*)\s*:/` matches at i, with the identifier
      ending at the returned index. Backing off the greedy identifier cannot
      help: the next character would be an identifier character, not `:`. */
  function KeyColonAt(s: string, i: nat): (r: Option<nat>)
    requires i < |s|
    ensures r.Some? ==> i < r.value <= |s|
  {
    if IsIdentStart(s[i]) then
      var k := IdentEnd(s, i + 1);
      var l := NextNonSpace(s, k);
      if l < |s| && s[l] == ':' then Some(k) else None
    else None
  }

  /** KeyColonAt with the end of the identifier and of the whitespace after
      it named. */
  lemma KeyColonAtIs(s: string, i: nat, e: nat, l: nat)
    requires i < |s| && IsIdentStart(s[i])
    requires e == IdentEnd(s, i + 1) && l == NextNonSpace(s, e)
    ensures KeyColonAt(s, i) == if l < |s| && s[l] == ':' then Some(e) else None
  {
  }

  /** The key pattern matches at i exactly when an identifier starts there
      and, after whitespace, a `:` follows its end; the match then ends
      with the identifier. */
  lemma KeyColonMatches(s: string, i: nat)
    requires i < |s|
    ensures KeyColonAt(s, i).Some? <==> IsIdentStart(s[i]) && NextNonSpace(s, IdentEnd(s, i + 1)) < |s|
                                        && s[NextNonSpace(s, IdentEnd(s, i + 1))] == ':'
    ensures KeyColonAt(s, i).Some? ==> KeyColonAt(s, i).value == IdentEnd(s, i + 1)
    ensures KeyColonAt(s, i).Some? ==> forall k :: i <= k < KeyColonAt(s, i).value ==> IsIdentPart(s[k])
    ensures KeyColonAt(s, i).Some? ==> KeyColonAt(s, i).value == |s| || !IsIdentPart(s[KeyColonAt(s, i).value])
    ensures KeyColonAt(s, i).Some? ==> NextNonSpace(s, KeyColonAt(s, i).value) < |s|
                                       && s[NextNonSpace(s, KeyColonAt(s, i).value)] == ':'
  {
  }

  /** `s.replace(/([a-zA-Z_$][a-zA-Z0-9_$]*)\s*:/g, '"$1":')` on s[i..]. */
  function QuoteColonKeysFrom(s: string, i: nat): string
    requires i <= |s|
    decreases |s| - i
  {
    if i == |s| then ""
    else match KeyColonAt(s, i)
      case Some(k) => QuotedKey(s[i..k]) + QuoteColonKeysFrom(s, NextNonSpace(s, k) + 1)
      case None => [s[i]] + QuoteColonKeysFrom(s, i + 1)
  }

  /** The replacement `"$1":` for the identifier key. */
  function QuotedKey(key: string): string {
    "\"" + key + "\":"
  }

  /** The rewrite inserts `"` and deletes whitespace before `:`, and nothing
      else: every other character survives, in order. */
  lemma {:induction false} QuotingKeepsOthers(s: string, i: nat)
    requires i <= |s|
    ensures Keep(QuoteColonKeysFrom(s, i), NotQuoteOrSpace) == Keep(s[i..], NotQuoteOrSpace)
    decreases |s| - i, 1
  {
    if i < |s| {
      match KeyColonAt(s, i)
      case Some(k) =>
        MatchStepKeeps(s, i, k);
      case None =>
        QuotingKeepsOthers(s, i + 1);
        PlainStepKeeps(s, i);
    }
  }

  lemma {:induction false} MatchStepKeeps(s: string, i: nat, k: nat)
    requires i < |s| && KeyColonAt(s, i) == Some(k)
    ensures Keep(QuoteColonKeysFrom(s, i), NotQuoteOrSpace) == Keep(s[i..], NotQuoteOrSpace)
    decreases |s| - i, 0
  {
    var n := QuoteMatchShape(s, i, k);
    QuotingKeepsOthers(s, n);
    MatchKept(s, i, k, n, QuoteColonKeysFrom(s, n));
  }

  lemma PlainStepKeeps(s: string, i: nat)
    requires i < |s| && KeyColonAt(s, i).None?
    requires Keep(QuoteColonKeysFrom(s, i + 1), NotQuoteOrSpace) == Keep(s[i + 1..], NotQuoteOrSpace)
    ensures Keep(QuoteColonKeysFrom(s, i), NotQuoteOrSpace) == Keep(s[i..], NotQuoteOrSpace)
  {
    PlainStep(s, i);
    PlainKept(s, i, QuoteColonKeysFrom(s, i + 1));
  }

  function QuoteColonKeys(s: string): string {
    QuoteColonKeysFrom(s, 0)
  }

  predicate NotQuoteOrSpace(c: char) {
    c != '"' && !IsSpace(c)
  }

  lemma PlainKept(s: string, i: nat, rest: string)
    requires i < |s|
    requires Keep(rest, NotQuoteOrSpace) == Keep(s[i + 1..], NotQuoteOrSpace)
    ensures Keep([s[i]] + rest, NotQuoteOrSpace) == Keep(s[i..], NotQuoteOrSpace)
  {
    SliceAt(s, i, i);
    KeepAfterSkip(s[i..i], s[i], s[i + 1..], rest, NotQuoteOrSpace);
  }

  lemma MatchKept(s: string, i: nat, k: nat, n: nat, rest: string)
    requires i < |s| && KeyColonAt(s, i) == Some(k)
    requires n == NextNonSpace(s, k) + 1 <= |s|
    requires Keep(rest, NotQuoteOrSpace) == Keep(s[n..], NotQuoteOrSpace)
    ensures Keep(QuotedKey(s[i..k]) + rest, NotQuoteOrSpace) == Keep(s[i..], NotQuoteOrSpace)
  {
    var l := ColonGap(s, i, k);
    QuotedKeyKept(s[i..k], s[k..l], s[l], s[l + 1..], rest);
  }

  /** A match is the key, whitespace, then the `:` at l. */
  lemma ColonGap(s: string, i: nat, k: nat) returns (l: nat)
    requires i < |s| && KeyColonAt(s, i) == Some(k)
    ensures l == NextNonSpace(s, k) && i < k <= l < |s| && s[l] == ':'
    ensures forall m :: 0 <= m < |s[k..l]| ==> IsSpace(s[k..l][m])
    ensures s[i..] == s[i..k] + (s[k..l] + ([s[l]] + s[l + 1..]))
  {
    l := NextNonSpace(s, k);
    SliceAt(s, k, l);
    assert s[i..] == s[i..k] + s[k..];
    assert forall m :: 0 <= m < l - k ==> s[k..l][m] == s[k + m];
  }

  /** One replaced match: `key  :` becomes `"key":`, with the same kept characters. */
  lemma QuotedKeyKept(key: string, gap: string, colon: char, tail: string, rest: string)
    requires colon == ':'
    requires forall m :: 0 <= m < |gap| ==> IsSpace(gap[m])
    requires Keep(rest, NotQuoteOrSpace) == Keep(tail, NotQuoteOrSpace)
    ensures Keep(QuotedKey(key) + rest, NotQuoteOrSpace)
         == Keep(key + (gap + ([colon] + tail)), NotQuoteOrSpace)
  {
    var p := NotQuoteOrSpace;
    calc {
      Keep(QuotedKey(key) + rest, p);
      { QuotedKeyKeeps(key, rest); }
      Keep(key, p) + ([':'] + Keep(rest, p));
      { KeepCons(colon, rest, p); }
      Keep(key, p) + Keep([colon] + rest, p);
      { KeepAfterSkip(gap, colon, tail, rest, p); }
      Keep(key, p) + Keep(gap + ([colon] + tail), p);
      { KeepConcat(key, gap + ([colon] + tail), p); }
      Keep(key + (gap + ([colon] + tail)), p);
    }
  }

  lemma QuotedKeyKeeps(key: string, rest: string)
    ensures Keep(QuotedKey(key) + rest, NotQuoteOrSpace)
         == Keep(key, NotQuoteOrSpace) + ([':'] + Keep(rest, NotQuoteOrSpace))
  {
    var p := NotQuoteOrSpace;
    assert Keep("\"", p) == [] by {
      KeepCons('"', "", p);
    }
    assert Keep("\":", p) == ":" by {
      KeepCons('"', ":", p);
      KeepCons(':', "", p);
    }
    calc {
      Keep(QuotedKey(key) + rest, p);
      { KeepConcat(QuotedKey(key), rest, p); }
      Keep(("\"" + key) + "\":", p) + Keep(rest, p);
      { KeepConcat("\"" + key, "\":", p); }
      (Keep("\"" + key, p) + Keep("\":", p)) + Keep(rest, p);
      { KeepConcat("\"", key, p); }
      (Keep(key, p) + ":") + Keep(rest, p);
    }
  }

  /** Text without `:` is left as it is. */
  lemma {:induction false} QuotingWithoutColonIsIdentity(s: string, i: nat)
    requires i <= |s|
    requires forall k :: i <= k < |s| ==> s[k] != ':'
    ensures QuoteColonKeysFrom(s, i) == s[i..]
    decreases |s| - i
  {
    if i < |s| {
      QuotingWithoutColonIsIdentity(s, i + 1);
      assert s[i..] == [s[i]] + s[i + 1..];
    }
  }

  /** A bare key is quoted and the space before its colon dropped. */
  lemma QuotingExample()
    ensures QuoteColonKeys("a :1") == "\"a\":1"
  {
    var s := "a :1";
    assert KeyColonAt(s, 3).None?;
    assert QuoteColonKeysFrom(s, 3) == "1";
    assert NextNonSpace(s, 1) == 2;
    assert KeyColonAt(s, 0) == Some(1);
    assert s[0..1] == "a";
  }

  /** Inside a string the rewrite applies all the same: the string `"a:"`
      is broken up. */
  lemma QuotingIgnoresStrings()
    ensures QuoteColonKeys("\"a:\"") == "\"\"a\":\""
  {
    var s := "\"a:\"";
    assert KeyColonAt(s, 3).None?;
    assert QuoteColonKeysFrom(s, 3) == "\"";
    assert KeyColonAt(s, 1) == Some(2);
    assert s[1..2] == "a";
    assert KeyColonAt(s, 0).None?;
  }

  /** Whether the key pattern matches depends only on the text from the
      match position on. */
  lemma KeyColonShift(u: string, t: string, q: nat)
    requires q < |t|
    ensures KeyColonAt(u + t, |u| + q).None? == KeyColonAt(t, q).None?
  {
    assert (u + t)[|u| + q] == t[q];
    if IsIdentStart(t[q]) {
      IdentEndShift(u, t, q + 1);
      NextNonSpaceShift(u, t, IdentEnd(t, q + 1));
      var l := NextNonSpace(t, IdentEnd(t, q + 1));
      if l < |t| {
        assert (u + t)[|u| + l] == t[l];
      }
    }
  }

  /** Over positions where the pattern does not match the scan copies. */
  lemma {:induction false} QuotingCopies(s: string, a: nat, b: nat)
    requires a <= b <= |s|
    requires forall m :: a <= m < b ==> KeyColonAt(s, m).None?
    ensures QuoteColonKeysFrom(s, a) == s[a..b] + QuoteColonKeysFrom(s, b)
    decreases b - a
  {
    if a < b {
      QuotingCopies(s, a + 1, b);
      PlainStep(s, a);
      ConsSlice(s, a, b);
      AppendAssoc([s[a]], s[a + 1..b], QuoteColonKeysFrom(s, b));
    }
  }

  lemma PlainStep(s: string, a: nat)
    requires a < |s| && KeyColonAt(s, a).None?
    ensures QuoteColonKeysFrom(s, a) == [s[a]] + QuoteColonKeysFrom(s, a + 1)
  {
  }

  /** The output from e on starts with s[e] or with an inserted `"`. */
  lemma QuotingHead(s: string, e: nat)
    requires e < |s|
    ensures |QuoteColonKeysFrom(s, e)| > 0
    ensures QuoteColonKeysFrom(s, e)[0] == s[e] || QuoteColonKeysFrom(s, e)[0] == '"'
  {
  }

  /** A character the scan copied does not start a match in the output:
      the identifier and whitespace after it are copied too, and what
      follows them is still not a colon. */
  lemma PlainStaysBare(s: string, i: nat)
    requires i < |s| && KeyColonAt(s, i).None?
    ensures |QuoteColonKeysFrom(s, i)| > 0 && KeyColonAt(QuoteColonKeysFrom(s, i), 0).None?
  {
    if !IsIdentStart(s[i]) {
      PlainStep(s, i);
    } else {
      var l := NextNonSpace(s, IdentEnd(s, i + 1));
      BareRunCopied(s, i);
      if l < |s| {
        QuotingHead(s, l);
      }
      CopiedRunStaysBare(s, i, QuoteColonKeysFrom(s, l));
    }
  }

  /** The copied identifier and whitespace, followed by the rest of the
      output, is still no match. */
  lemma CopiedRunStaysBare(s: string, i: nat, t: string)
    requires i < |s| && KeyColonAt(s, i).None? && IsIdentStart(s[i])
    requires NextNonSpace(s, IdentEnd(s, i + 1)) < |s| ==>
               |t| > 0 && (t[0] == s[NextNonSpace(s, IdentEnd(s, i + 1))] || t[0] == '"')
    requires NextNonSpace(s, IdentEnd(s, i + 1)) == |s| ==> t == ""
    ensures |s[i..NextNonSpace(s, IdentEnd(s, i + 1))] + t| > 0
    ensures KeyColonAt(s[i..NextNonSpace(s, IdentEnd(s, i + 1))] + t, 0).None?
  {
    var e := IdentEnd(s, i + 1);
    var l := NextNonSpace(s, e);
    var w := s[i..l];
    assert forall m :: 0 <= m < l - i ==> w[m] == s[i + m];
    if l < |s| {
      assert s[l] != ':' && !IsSpace(s[l]);
      assert e == l ==> !IsIdentPart(s[l]);
    }
    BareRunStaysBare(w, t, e - i);
  }

  /** The identifier at an unmatched position, and the whitespace after it, are copied. */
  lemma BareRunCopied(s: string, i: nat)
    requires i < |s| && KeyColonAt(s, i).None? && IsIdentStart(s[i])
    ensures QuoteColonKeysFrom(s, i)
         == s[i..NextNonSpace(s, IdentEnd(s, i + 1))] + QuoteColonKeysFrom(s, NextNonSpace(s, IdentEnd(s, i + 1)))
  {
    var e := IdentEnd(s, i + 1);
    var l := NextNonSpace(s, e);
    forall m | i <= m < l
      ensures KeyColonAt(s, m).None?
    {
      if i < m < e && IsIdentStart(s[m]) {
        IdentEndIs(s, m + 1, e);
      }
    }
    QuotingCopies(s, i, l);
  }

  /** An identifier and whitespace followed by neither `:` nor more of the
      same is no match. */
  lemma BareRunStaysBare(w: string, t: string, e: nat)
    requires 0 < e <= |w| && IsIdentStart(w[0])
    requires forall m :: 1 <= m < e ==> IsIdentPart(w[m])
    requires forall m :: e <= m < |w| ==> IsSpace(w[m])
    requires |t| == 0 || (!IsSpace(t[0]) && t[0] != ':' && (e == |w| ==> !IsIdentPart(t[0])))
    ensures |w + t| > 0 && KeyColonAt(w + t, 0).None?
  {
    var r := w + t;
    assert forall m :: 0 <= m < |w| ==> r[m] == w[m];
    IdentEndIs(r, 1, e);
    NextNonSpaceIs(r, e, |w|);
  }

  /** Inside a replaced match `"key":` nothing starts a match. */
  lemma QuotedPieceStaysBare(key: string, rest: string, p: nat)
    requires forall m :: 0 <= m < |key| ==> IsIdentPart(key[m])
    requires p < |key| + 3
    ensures KeyColonAt(QuotedKey(key) + rest, p).None?
  {
    var r := QuotedKey(key) + rest;
    assert r[|key| + 1] == '"' && r[|key| + 2] == ':';
    if 1 <= p <= |key| {
      assert forall m :: 1 <= m <= |key| ==> r[m] == key[m - 1];
      IdentEndIs(r, p + 1, |key| + 1);
      NextNonSpaceIs(r, |key| + 1, |key| + 1);
    }
  }

  /** No bare key is left: the key pattern matches nowhere in the output. */
  lemma {:induction false} NoBareKeyLeft(s: string, i: nat)
    requires i <= |s|
    ensures Bare(QuoteColonKeysFrom(s, i))
    decreases |s| - i, 1
  {
    if i < |s| {
      match KeyColonAt(s, i)
      case Some(k) =>
        MatchStaysBare(s, i, k);
      case None =>
        NoBareKeyLeft(s, i + 1);
        PlainPrefixStaysBare(s, i);
    }
  }

  /** The key pattern matches nowhere in r. */
  predicate Bare(r: string) {
    forall p :: 0 <= p < |r| ==> KeyColonAt(r, p).None?
  }

  lemma {:induction false} MatchStaysBare(s: string, i: nat, k: nat)
    requires i < |s| && KeyColonAt(s, i) == Some(k)
    ensures Bare(QuoteColonKeysFrom(s, i))
    decreases |s| - i, 0
  {
    var n := QuoteMatchShape(s, i, k);
    NoBareKeyLeft(s, n);
    PieceThenBare(s[i..k], QuoteColonKeysFrom(s, n));
  }

  /** One step of the scan at a match, unfolded. */
  lemma MatchStep(s: string, i: nat, k: nat, n: nat)
    requires i < |s| && KeyColonAt(s, i) == Some(k)
    requires n == NextNonSpace(s, k) + 1 <= |s|
    ensures QuoteColonKeysFrom(s, i) == QuotedKey(s[i..k]) + QuoteColonKeysFrom(s, n)
  {
  }

  /** The parts of a match: key `s[i..k]`, resumption at `n`. */
  lemma QuoteMatchShape(s: string, i: nat, k: nat) returns (n: nat)
    requires i < |s| && KeyColonAt(s, i) == Some(k)
    ensures n == NextNonSpace(s, k) + 1 && i < k < n <= |s|
    ensures forall m :: 0 <= m < |s[i..k]| ==> IsIdentPart(s[i..k][m])
    ensures QuoteColonKeysFrom(s, i) == QuotedKey(s[i..k]) + QuoteColonKeysFrom(s, n)
  {
    KeyColonMatches(s, i);
    n := NextNonSpace(s, k) + 1;
    MatchStep(s, i, k, n);
    assert forall m :: 0 <= m < k - i ==> s[i..k][m] == s[i + m];
  }

  lemma PieceThenBare(key: string, rest: string)
    requires forall m :: 0 <= m < |key| ==> IsIdentPart(key[m])
    requires Bare(rest)
    ensures Bare(QuotedKey(key) + rest)
  {
    forall p | 0 <= p < |QuotedKey(key)|
      ensures KeyColonAt(QuotedKey(key) + rest, p).None?
    {
      QuotedPieceStaysBare(key, rest, p);
    }
    ShiftedStaysBare(QuotedKey(key), rest);
  }

  /** Positions in a bare suffix stay unmatched whatever comes before it. */
  lemma ShiftedStaysBare(u: string, t: string)
    requires Bare(t)
    ensures forall p :: |u| <= p < |u + t| ==> KeyColonAt(u + t, p).None?
  {
    forall p | |u| <= p < |u + t|
      ensures KeyColonAt(u + t, p).None?
    {
      KeyColonShift(u, t, p - |u|);
    }
  }

  lemma PlainPrefixStaysBare(s: string, i: nat)
    requires i < |s| && KeyColonAt(s, i).None?
    requires Bare(QuoteColonKeysFrom(s, i + 1))
    ensures Bare(QuoteColonKeysFrom(s, i))
  {
    PlainStep(s, i);
    PlainStaysBare(s, i);
    ConsThenBare(s[i], QuoteColonKeysFrom(s, i + 1));
  }

  lemma ConsThenBare(c: char, rest: string)
    requires KeyColonAt([c] + rest, 0).None?
    requires Bare(rest)
    ensures Bare([c] + rest)
  {
    ShiftedStaysBare([c], rest);
  }

  /** Quoting twice is quoting once. */
  lemma QuoteColonKeysIdempotent(s: string)
    ensures QuoteColonKeys(QuoteColonKeys(s)) == QuoteColonKeys(s)
  {
    var r := QuoteColonKeys(s);
    NoBareKeyLeft(s, 0);
    QuotingCopies(r, 0, |r|);
  }

  /** The whole colon-style reshaper. */
  function ColonReshaped(t: string): string {
    QuoteColonKeys(DropTrailingCommas(t))
  }
}
