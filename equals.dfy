/** The equals-style reshaper of `convertJsObjectToJson`, taken when the
    truncated text contains `=`: strip the outer braces, split the body into
    pairs at the commas that start a new key, split each pair at its first `=`
    outside a tag, and emit every pair as `"key": "value"`. */
module EqualsStyle {
  import opened Text
  import opened Tags
  import opened Json

  /** `content = processedStr.trim()` without one leading `{` and one
      trailing `}`. */
  function StripOuterBraces(t: string): (c: string)
    ensures var a := Trim(t); var f := if |a| > 0 && a[0] == '{' then 1 else 0;
      f + |c| <= |a| && c == a[f..f + |c|] &&
      (if |a| > f && a[|a| - 1] == '}' then f + |c| == |a| - 1 else f + |c| == |a|)
  {
    var a := Trim(t);
    var b := if |a| > 0 && a[0] == '{' then a[1..] else a;
    if |b| > 0 && b[|b| - 1] == '}' then b[..|b| - 1] else b
  }

  /** A comma outside a tag whose next non-whitespace character matches
      `[a-zA-Z_$]` separates two pairs; any other comma belongs to a value. */
  predicate IsSeparator(c: string, i: nat)
    requires i < |c|
  {
    && c[i] == ','
    && !TagAt(c, i).inTag
    && var j := NextNonSpace(c, i + 1); j < |c| && IsIdentStart(c[j])
  }

  /** The raw text of c[..n] cut at the separators (which look ahead past n):
      the segments already closed by a separator, and the one still open. */
  datatype Cut = Cut(done: seq<string>, open: string)

  function CutUpTo(c: string, n: nat): Cut
    requires n <= |c|
  {
    if n == 0 then Cut([], "")
    else
      var prev := CutUpTo(c, n - 1);
      if IsSeparator(c, n - 1) then Cut(prev.done + [prev.open], "")
      else Cut(prev.done, prev.open + [c[n - 1]])
  }

  /** All the segments of c, one more than there are separators. */
  function Segments(c: string): (r: seq<string>)
    ensures |r| >= 1
  {
    var k := CutUpTo(c, |c|);
    k.done + [k.open]
  }

  /** No character is lost or moved: the segments, glued back together with
      the separating commas, are the text. */
  lemma {:induction false} JoinSegmentsUpTo(c: string, n: nat)
    requires n <= |c|
    ensures Join(CutUpTo(c, n).done + [CutUpTo(c, n).open], ",") == c[..n]
  {
    if n > 0 {
      JoinSegmentsUpTo(c, n - 1);
      assert c[..n] == c[..n - 1] + [c[n - 1]];
      if IsSeparator(c, n - 1) {
        SeparatorJoins(CutUpTo(c, n - 1), c[..n - 1]);
      } else {
        CharacterJoins(CutUpTo(c, n - 1), c[..n - 1], c[n - 1]);
      }
    }
  }

  /** Closing the open segment at a separator puts the comma back. */
  lemma SeparatorJoins(prev: Cut, u: string)
    requires Join(prev.done + [prev.open], ",") == u
    ensures Join((prev.done + [prev.open]) + [""], ",") == u + [',']
  {
    JoinAppend(prev.done + [prev.open], "", ",");
  }

  /** Extending the open segment extends the join by the same character. */
  lemma CharacterJoins(prev: Cut, u: string, ch: char)
    requires Join(prev.done + [prev.open], ",") == u
    ensures Join(prev.done + [prev.open + [ch]], ",") == u + [ch]
  {
    JoinAppend(prev.done, prev.open, ",");
    JoinAppend(prev.done, prev.open + [ch], ",");
    if prev.done != [] {
      assert Join(prev.done, ",") + "," + (prev.open + [ch])
        == (Join(prev.done, ",") + "," + prev.open) + [ch];
    }
  }

  lemma JoinSegments(c: string)
    ensures Join(Segments(c), ",") == c
  {
    JoinSegmentsUpTo(c, |c|);
  }

  /** A segment is closed exactly at a separator. */
  lemma {:induction false} SegmentCount(c: string, n: nat)
    requires n <= |c|
    ensures |CutUpTo(c, n).done| == SeparatorsBelow(c, n)
  {
    if n > 0 {
      SegmentCount(c, n - 1);
    }
  }

  /** The separators among the first n positions, in increasing order. */
  function SeparatorPositions(c: string, n: nat): (r: seq<nat>)
    requires n <= |c|
    ensures forall k :: 0 <= k < |r| ==> r[k] < n && IsSeparator(c, r[k])
    ensures forall k, l :: 0 <= k < l < |r| ==> r[k] < r[l]
    ensures forall m :: 0 <= m < n && IsSeparator(c, m) ==> m in r
  {
    if n == 0 then []
    else if IsSeparator(c, n - 1) then SeparatorPositions(c, n - 1) + [n - 1]
    else SeparatorPositions(c, n - 1)
  }

  /** Where the k-th segment starts: at 0, or just after the separator that
      closed the segment before it. */
  function SegmentStart(ps: seq<nat>, k: nat): nat
    requires k <= |ps|
  {
    if k == 0 then 0 else ps[k - 1] + 1
  }

  /** Where the cuts fall: the k-th closed segment runs from the start of
      the k-th segment up to the k-th separator, and the open segment from
      the last separator to n. */
  predicate CutAt(c: string, n: nat, cut: Cut, ps: seq<nat>)
    requires n <= |c|
  {
    && |cut.done| == |ps|
    && (forall k {:trigger cut.done[k]} :: 0 <= k < |ps| ==> SegmentStart(ps, k) <= ps[k] < n && cut.done[k] == c[SegmentStart(ps, k)..ps[k]])
    && SegmentStart(ps, |ps|) <= n && cut.open == c[SegmentStart(ps, |ps|)..n]
  }

  /** The text is cut exactly at its separators: one closed segment per
      separator, each ending at its separator, in order. */
  lemma {:induction false} CutsAtSeparators(c: string, n: nat)
    requires n <= |c|
    ensures CutAt(c, n, CutUpTo(c, n), SeparatorPositions(c, n))
  {
    if n > 0 {
      CutsAtSeparators(c, n - 1);
      var prev := CutUpTo(c, n - 1);
      if IsSeparator(c, n - 1) {
        SeparatorCut(c, n, prev, SeparatorPositions(c, n - 1));
        assert CutUpTo(c, n) == Cut(prev.done + [prev.open], "");
      } else {
        CharacterCut(c, n, prev, SeparatorPositions(c, n - 1));
        assert CutUpTo(c, n) == Cut(prev.done, prev.open + [c[n - 1]]);
      }
    }
  }

  lemma SeparatorCut(c: string, n: nat, prev: Cut, ps: seq<nat>)
    requires 0 < n <= |c| && CutAt(c, n - 1, prev, ps)
    ensures CutAt(c, n, Cut(prev.done + [prev.open], ""), ps + [n - 1])
  {
    var ps2 := ps + [n - 1];
    var done2 := prev.done + [prev.open];
    forall k | 0 <= k < |ps2|
      ensures SegmentStart(ps2, k) <= ps2[k] < n && done2[k] == c[SegmentStart(ps2, k)..ps2[k]]
    {
      SameStart(ps, n - 1, k);
      if k < |ps| {
        assert ps2[k] == ps[k] && done2[k] == prev.done[k];
      } else {
        assert ps2[k] == n - 1 && done2[k] == prev.open;
      }
    }
    assert SegmentStart(ps2, |ps2|) == n;
  }

  /** Appending a separator leaves the starts of the earlier segments alone. */
  lemma SameStart(ps: seq<nat>, p: nat, k: nat)
    requires k <= |ps|
    ensures SegmentStart(ps + [p], k) == SegmentStart(ps, k)
  {
    if k > 0 {
      assert (ps + [p])[k - 1] == ps[k - 1];
    }
  }

  lemma CharacterCut(c: string, n: nat, prev: Cut, ps: seq<nat>)
    requires 0 < n <= |c| && CutAt(c, n - 1, prev, ps)
    ensures CutAt(c, n, Cut(prev.done, prev.open + [c[n - 1]]), ps)
  {
    var next := Cut(prev.done, prev.open + [c[n - 1]]);
    forall k | 0 <= k < |ps|
      ensures SegmentStart(ps, k) <= ps[k] < n && next.done[k] == c[SegmentStart(ps, k)..ps[k]]
    {
      assert next.done[k] == prev.done[k];
    }
    SliceSnoc(c, SegmentStart(ps, |ps|), n);
  }

  /** The number of separators among the first n positions. */
  function SeparatorsBelow(c: string, n: nat): nat
    requires n <= |c|
  {
    if n == 0 then 0 else SeparatorsBelow(c, n - 1) + (if IsSeparator(c, n - 1) then 1 else 0)
  }

  function MapTrim(ss: seq<string>): (r: seq<string>)
    ensures |r| == |ss|
    ensures forall k :: 0 <= k < |r| ==> r[k] == Trim(ss[k])
  {
    if ss == [] then [] else MapTrim(ss[..|ss| - 1]) + [Trim(ss[|ss| - 1])]
  }

  /** The `pairs` array: every segment but the last, trimmed, then the last
      one trimmed when that leaves something. */
  function Pairs(c: string): seq<string> {
    var k := CutUpTo(c, |c|);
    MapTrim(k.done) + (if Trim(k.open) != "" then [Trim(k.open)] else [])
  }

  lemma MapTrimAppend(ss: seq<string>, x: string)
    ensures MapTrim(ss + [x]) == MapTrim(ss) + [Trim(x)]
  {
    assert (ss + [x])[..|ss|] == ss;
  }

  /** The splitting loop of `convertJsObjectToJson` (`inValuePart` is set but
      never read, as in the source). */
  method SplitPairs(content: string) returns (pairs: seq<string>)
    ensures pairs == Pairs(content)
  {
    pairs := [];
    var currentPair := "";
    var inHtmlTag, htmlTagLevel := false, 0;
    var inValuePart := false;
    for i := 0 to |content|
      invariant TagState(inHtmlTag, htmlTagLevel) == TagAt(content, i)
      invariant pairs == MapTrim(CutUpTo(content, i).done) && currentPair == CutUpTo(content, i).open
    {
      var ch := content[i];
      ghost var sep := IsSeparator(content, i);
      if ch == '<' {
        inHtmlTag := true;
        htmlTagLevel := htmlTagLevel + 1;
        currentPair := currentPair + [ch];
      } else if ch == '>' {
        htmlTagLevel := htmlTagLevel - 1;
        if htmlTagLevel == 0 {
          inHtmlTag := false;
        }
        currentPair := currentPair + [ch];
      } else if ch == '=' && !inHtmlTag {
        inValuePart := true;
        currentPair := currentPair + [ch];
      } else if ch == ',' && !inHtmlTag {
        var nextCharIndex := SkipSpaces(content, i + 1);
        if nextCharIndex < |content| && IsIdentStart(content[nextCharIndex]) {
          assert sep;
          MapTrimAppend(CutUpTo(content, i).done, currentPair);
          pairs := pairs + [Trim(currentPair)];
          currentPair := "";
          inValuePart := false;
        } else {
          assert !sep;
          currentPair := currentPair + [ch];
        }
      } else {
        assert !sep;
        currentPair := currentPair + [ch];
      }
    }
    if Trim(currentPair) != "" {
      pairs := pairs + [Trim(currentPair)];
    }
  }

  /** `=` outside a tag, the only `=` that splits a pair. */
  predicate EqualsOutsideTag(p: string, k: nat)
    requires k < |p|
  {
    p[k] == '=' && !TagAt(p, k).inTag
  }

  /** The first `=` outside a tag at or after i, or -1. */
  function FirstEqualsFrom(p: string, i: nat): (r: int)
    requires i <= |p|
    ensures r == -1 || (i <= r < |p| && EqualsOutsideTag(p, r))
    ensures forall k :: i <= k < (if r == -1 then |p| else r) ==> !EqualsOutsideTag(p, k)
    decreases |p| - i
  {
    if i == |p| then -1
    else if EqualsOutsideTag(p, i) then i
    else FirstEqualsFrom(p, i + 1)
  }

  /** `equalIndex` for one pair. */
  function FirstEquals(p: string): (r: int)
    ensures r == -1 || (0 <= r < |p| && EqualsOutsideTag(p, r))
    ensures forall k :: 0 <= k < (if r == -1 then |p| else r) ==> !EqualsOutsideTag(p, k)
  {
    FirstEqualsFrom(p, 0)
  }

  /** The loop that looks for the first `=` outside a tag and stops there. */
  method FindEquals(pair: string) returns (equalIndex: int)
    ensures equalIndex == FirstEquals(pair)
  {
    equalIndex := -1;
    var inTag, tagLevel := false, 0;
    var i := 0;
    while i < |pair|
      invariant 0 <= i <= |pair|
      invariant equalIndex == -1
      invariant TagState(inTag, tagLevel) == TagAt(pair, i)
      invariant forall k :: 0 <= k < i ==> !EqualsOutsideTag(pair, k)
    {
      var ch := pair[i];
      if ch == '<' {
        inTag := true;
        tagLevel := tagLevel + 1;
      } else if ch == '>' {
        tagLevel := tagLevel - 1;
        if tagLevel == 0 {
          inTag := false;
        }
      } else if ch == '=' && !inTag {
        assert EqualsOutsideTag(pair, i);
        equalIndex := i;
        break;
      }
      i := i + 1;
    }
  }

  /** `value.replace(/"/g, '\\"')` */
  function Escape(v: string): (r: string)
    ensures |r| > 0 ==> r[0] != '"'
    ensures forall i :: 0 <= i < |r| && r[i] == '"' ==> i > 0 && r[i - 1] == '\\'
  {
    if v == [] then []
    else
      var head := if v[0] == '"' then "\\\"" else [v[0]];
      var rest := Escape(v[1..]);
      assert forall i :: |head| <= i < |head + rest| ==> (head + rest)[i] == rest[i - |head|];
      head + rest
  }

  /** Reading `\"` as `"` and every other character as itself. */
  function Unescape(r: string): string {
    if r == [] then []
    else if |r| >= 2 && r[0] == '\\' && r[1] == '"' then "\"" + Unescape(r[2..])
    else [r[0]] + Unescape(r[1..])
  }

  /** No information is lost by escaping: the value can be read back. */
  lemma {:induction false} UnescapeEscape(v: string)
    ensures Unescape(Escape(v)) == v
  {
    if v != [] {
      UnescapeEscape(v[1..]);
      var rest := Escape(v[1..]);
      if v[0] == '"' {
        assert Escape(v) == "\\\"" + rest;
        assert Escape(v)[2..] == rest;
      } else {
        assert Escape(v) == [v[0]] + rest;
        assert Escape(v)[1..] == rest;
      }
    }
  }

  /** One pair's key and value, when it has an `=` outside a tag. */
  function KeyValue(pair: string): Option<(string, string)> {
    var e := FirstEquals(pair);
    if e == -1 then None else Some((Trim(pair[..e]), Trim(pair[e + 1..])))
  }

  /** The keys and values of the pairs that have an `=`, in input order. */
  function KeyValues(pairs: seq<string>): seq<(string, string)> {
    if pairs == [] then []
    else
      KeyValues(pairs[..|pairs| - 1])
      + match KeyValue(pairs[|pairs| - 1]) { case None => [] case Some(kv) => [kv] }
  }

  /** `"${key}": "${escapedValue}"` */
  function Entry(key: string, value: string): string {
    "\"" + key + "\": \"" + Escape(value) + "\""
  }

  function Entries(kvs: seq<(string, string)>): (r: seq<string>)
    ensures |r| == |kvs|
  {
    if kvs == [] then [] else Entries(kvs[..|kvs| - 1]) + [Entry(kvs[|kvs| - 1].0, kvs[|kvs| - 1].1)]
  }

  /** `{${jsonPairs.join(', ')}}` */
  function Emitted(pairs: seq<string>): string {
    "{" + Join(Entries(KeyValues(pairs)), ", ") + "}"
  }

  lemma EntriesAppend(kvs: seq<(string, string)>, extra: seq<(string, string)>)
    requires |extra| <= 1
    ensures Entries(kvs + extra) == Entries(kvs) + Entries(extra)
  {
    if extra == [] {
      assert kvs + extra == kvs;
    } else {
      assert (kvs + extra)[..|kvs|] == kvs;
    }
  }

  /** The loop over the pairs that builds `jsonPairs`, and the final join. */
  method EmitPairs(pairs: seq<string>) returns (processed: string)
    ensures processed == Emitted(pairs)
  {
    var jsonPairs: seq<string> := [];
    for n := 0 to |pairs|
      invariant jsonPairs == Entries(KeyValues(pairs[..n]))
    {
      var pair := pairs[n];
      assert pairs[..n + 1][..n] == pairs[..n];
      ghost var added := match KeyValue(pair) { case None => [] case Some(kv) => [kv] };
      assert KeyValues(pairs[..n + 1]) == KeyValues(pairs[..n]) + added;
      EntriesAppend(KeyValues(pairs[..n]), added);
      var equalIndex := FindEquals(pair);
      if equalIndex != -1 {
        var key := Trim(pair[..equalIndex]);
        var value := Trim(pair[equalIndex + 1..]);
        var escapedValue := Escape(value);
        var jsonPair := "\"" + key + "\": \"" + escapedValue + "\"";
        jsonPairs := jsonPairs + [jsonPair];
      }
    }
    assert pairs[..|pairs|] == pairs;
    processed := "{" + Join(jsonPairs, ", ") + "}";
  }

  /** The pair list is processed in order: the entries of a concatenation
      are those of its parts, one after the other. */
  lemma {:induction false} KeyValuesConcat(a: seq<string>, b: seq<string>)
    ensures KeyValues(a + b) == KeyValues(a) + KeyValues(b)
    decreases |b|
  {
    if b == [] {
      assert a + b == a;
    } else {
      var b' := b[..|b| - 1];
      var last := match KeyValue(b[|b| - 1]) { case None => [] case Some(kv) => [kv] };
      assert (a + b)[..|a + b| - 1] == a + b';
      assert (a + b)[|a + b| - 1] == b[|b| - 1];
      assert KeyValues(a + b) == KeyValues(a + b') + last;
      assert KeyValues(b) == KeyValues(b') + last;
      KeyValuesConcat(a, b');
    }
  }

  /** There is one entry per pair with an `=` outside a tag; the others are
      dropped without trace. */
  lemma {:induction false} OneEntryPerSplittablePair(pairs: seq<string>)
    ensures |KeyValues(pairs)| == CountSplittable(pairs)
  {
    if pairs != [] {
      OneEntryPerSplittablePair(pairs[..|pairs| - 1]);
    }
  }

  function CountSplittable(pairs: seq<string>): nat {
    if pairs == [] then 0
    else CountSplittable(pairs[..|pairs| - 1]) + (if FirstEquals(pairs[|pairs| - 1]) != -1 then 1 else 0)
  }

  /** The whole equals-style reshaper. */
  function EqualsReshaped(t: string): string {
    Emitted(Pairs(StripOuterBraces(t)))
  }
}
